/**
 The enabling-condition protocol: any number of fault libraries and one registry, joined by
 lossless first-in first-out channels, every library subscribed from the start.

 Libraries update themselves before they report; the registry drops repeats and broadcasts the
 rest to everyone, the reporter included.
 */
module EnablingProtocol {
  import opened Basics
  import opened Faults
  import opened DiagnosticEvents
  import opened Reporter
  import opened EnablingConditions

  /** `clients[i].outbox` is channel `i` up to the registry, `down[i]` the one back. */
  datatype System = System(
    registry: Statuses,
    clients: seq<Client>,
    down: seq<seq<EnablingConditionNotification>>,
    broadcasts: seq<EnablingConditionNotification>)

  datatype Action =
    | Announce(client: nat, entity: string)
    | Report(client: nat, id: ShortString, status: EnablingConditionStatus)
    | Watch(client: nat, conditionIds: seq<string>)
    | Unwatch(client: nat, monitor: nat)
    | RegistryReceives(client: nat)
    | ClientReceives(client: nat)

  const TAKEN: Option<SinkResult> := Some(Accepted)

  function Initial(n: nat): System {
    System(map[], seq(n, _ => NEW_CLIENT), seq(n, _ => []), [])
  }

  predicate WellFormed(s: System) {
    |s.down| == |s.clients|
  }

  function ToAll(down: seq<seq<EnablingConditionNotification>>, m: EnablingConditionNotification)
    : (d: seq<seq<EnablingConditionNotification>>)
    ensures |d| == |down| && forall i :: 0 <= i < |d| ==> d[i] == down[i] + [m]
  {
    seq(|down|, i requires 0 <= i < |down| => down[i] + [m])
  }

  /** What the registry does with one message; a change goes to every library. */
  function RegistryStep(s: System, event: DiagnosticEvent): System {
    var (registry, sent) := RegistryReacts(s.registry, event);
    s.(registry := registry, down := if sent == [] then s.down else ToAll(s.down, sent[0]),
       broadcasts := s.broadcasts + sent)
  }

  function ClientStep(c: Client, a: Action): Client {
    match a
    case Announce(_, entity) => RegisterStep(c, entity, TAKEN).1
    case Report(_, id, status) => ReportStep(c, id, status, TAKEN)
    case Watch(_, conditionIds) => AddMonitor(c, conditionIds)
    case Unwatch(_, monitor) => c.(monitors := Without(c.monitors, monitor))
    case _ => c
  }

  /** An action of a library that does not exist, or a receive on an empty channel, does nothing. */
  function Next(s: System, a: Action): System
    requires WellFormed(s)
  {
    var i := a.client;
    if i >= |s.clients| then s
    else
      var c := s.clients[i];
      match a
      case RegistryReceives(_) =>
        if c.outbox == [] then s
        else RegistryStep(s.(clients := s.clients[i := c.(outbox := c.outbox[1..])]), c.outbox[0])
      case ClientReceives(_) =>
        if s.down[i] == [] then s
        else s.(clients := s.clients[i := Learn(c, s.down[i][0].id, s.down[i][0].status)],
                down := s.down[i := s.down[i][1..]])
      case _ => s.(clients := s.clients[i := ClientStep(c, a)])
  }

  function Reach(n: nat, actions: seq<Action>): (s: System)
    ensures WellFormed(s) && |s.clients| == n
  {
    if actions == [] then Initial(n) else Next(Reach(n, actions[..|actions| - 1]), actions[|actions| - 1])
  }

  // ---------------------------------------------------------------- what a channel says about a condition

  function LastNote(q: seq<EnablingConditionNotification>, id: string): Option<EnablingConditionStatus> {
    if q == [] then None
    else if q[|q| - 1].id == id then Some(q[|q| - 1].status)
    else LastNote(q[..|q| - 1], id)
  }

  function LastChange(q: seq<DiagnosticEvent>, id: string): Option<EnablingConditionStatus> {
    if q == [] then None
    else if q[|q| - 1].EnablingConditionStatusChange? && q[|q| - 1].id == id then Some(q[|q| - 1].status)
    else LastChange(q[..|q| - 1], id)
  }

  predicate Announced(q: seq<DiagnosticEvent>, id: string) {
    q != [] && ((q[|q| - 1].EnablingConditionRegister? && q[|q| - 1].entity == id) || Announced(q[..|q| - 1], id))
  }

  lemma {:induction false} NotesOfTail(q: seq<EnablingConditionNotification>, id: string)
    requires q != []
    ensures LastNote(q, id) ==
            if LastNote(q[1..], id).Some? then LastNote(q[1..], id)
            else if q[0].id == id then Some(q[0].status) else None
  {
    if |q| > 1 {
      assert q[..|q| - 1][1..] == q[1..][..|q| - 2];
      NotesOfTail(q[..|q| - 1], id);
    }
  }

  lemma {:induction false} ChangesOfTail(q: seq<DiagnosticEvent>, id: string)
    requires q != []
    ensures LastChange(q, id) ==
            if LastChange(q[1..], id).Some? then LastChange(q[1..], id)
            else if q[0].EnablingConditionStatusChange? && q[0].id == id then Some(q[0].status) else None
    ensures Announced(q, id) <==> Announced(q[1..], id) || (q[0].EnablingConditionRegister? && q[0].entity == id)
  {
    if |q| > 1 {
      assert q[..|q| - 1][1..] == q[1..][..|q| - 2];
      ChangesOfTail(q[..|q| - 1], id);
    }
  }

  lemma NotesSnoc(q: seq<EnablingConditionNotification>, m: EnablingConditionNotification, id: string)
    ensures LastNote(q + [m], id) == if m.id == id then Some(m.status) else LastNote(q, id)
  {
    assert (q + [m])[..|q|] == q;
  }

  lemma ChangesSnoc(q: seq<DiagnosticEvent>, m: DiagnosticEvent, id: string)
    ensures LastChange(q + [m], id) ==
            if m.EnablingConditionStatusChange? && m.id == id then Some(m.status) else LastChange(q, id)
    ensures Announced(q + [m], id) <==> (m.EnablingConditionRegister? && m.entity == id) || Announced(q, id)
  {
    assert (q + [m])[..|q|] == q;
  }

  // ---------------------------------------------------------------- agreement

  /**
   How the registry's status, a library's status and the two channels between them fit together,
   for one condition. A notification under way brings the registry's status; without one, the
   library already has it, or its own last report is under way, or both are at the initial status.
   */
  predicate Linked(reg: Option<EnablingConditionStatus>, known: Option<EnablingConditionStatus>,
                   note: Option<EnablingConditionStatus>, change: Option<EnablingConditionStatus>, announced: bool)
  {
    && (note.Some? ==> reg == note)
    && (note.None? && known.Some? ==>
          reg == known || change == known || (reg.None? && announced && known == Some(Inactive)))
    && (note.None? && known.None? ==> reg != Some(Active))
    && (known.None? ==> change.None?)
  }

  predicate LinkedOn(registry: Statuses, c: Client, down: seq<EnablingConditionNotification>, id: string) {
    Linked(StatusOf(registry, id), StatusOf(c.conditions, id), LastNote(down, id), LastChange(c.outbox, id),
           Announced(c.outbox, id))
  }

  ghost predicate Consistent(s: System)
    requires WellFormed(s)
  {
    forall i, id :: 0 <= i < |s.clients| ==> LinkedOn(s.registry, s.clients[i], s.down[i], id)
  }

  lemma AnnounceLinked(registry: Statuses, c: Client, down: seq<EnablingConditionNotification>, entity: ShortString, id: string)
    requires LinkedOn(registry, c, down, id) && entity !in c.conditions
    ensures LinkedOn(registry, c.(conditions := c.conditions[entity := Inactive],
                                  outbox := c.outbox + [EnablingConditionRegister(entity)]), down, id)
  {
    ChangesSnoc(c.outbox, EnablingConditionRegister(entity), id);
    var reg := StatusOf(registry, id);
    assert reg.None? || reg.value.Active? || reg.value.Inactive?;
  }

  lemma ReportLinked(registry: Statuses, c: Client, down: seq<EnablingConditionNotification>, id': ShortString,
                     status: EnablingConditionStatus, id: string)
    requires LinkedOn(registry, c, down, id)
    ensures LinkedOn(registry, c.(conditions := c.conditions[id' := status],
                                  outbox := c.outbox + [EnablingConditionStatusChange(id', status)]), down, id)
  {
    ChangesSnoc(c.outbox, EnablingConditionStatusChange(id', status), id);
  }

  /** Calls and monitors play no part in the agreement. */
  lemma SameLink(registry: Statuses, c: Client, c': Client, down: seq<EnablingConditionNotification>, id: string)
    requires c.conditions == c'.conditions && c.outbox == c'.outbox
    ensures LinkedOn(registry, c, down, id) <==> LinkedOn(registry, c', down, id)
  {
  }

  lemma ClientStepLinked(registry: Statuses, c: Client, down: seq<EnablingConditionNotification>, a: Action, id: string)
    requires LinkedOn(registry, c, down, id)
    ensures LinkedOn(registry, ClientStep(c, a), down, id)
  {
    var c' := ClientStep(c, a);
    match a
    case Announce(_, entity) =>
      if c'.outbox != c.outbox {
        AnnounceLinked(registry, c, down, entity, id);
      }
    case Report(_, id', status) =>
      if StatusOf(c.conditions, id') != Some(status) {
        ReportLinked(registry, c, down, id', status, id);
        var reported := c.(conditions := c.conditions[id' := status],
                           outbox := c.outbox + [EnablingConditionStatusChange(id', status)]);
        SameLink(registry, reported, c', down, id);
      }
    case _ => SameLink(registry, c, c', down, id);
  }

  lemma LearnLinked(registry: Statuses, c: Client, down: seq<EnablingConditionNotification>, id: string)
    requires LinkedOn(registry, c, down, id) && down != []
    ensures LinkedOn(registry, Learn(c, down[0].id, down[0].status), down[1..], id)
  {
    NotesOfTail(down, id);
  }

  /** A change reaches every library's channel. */
  lemma BroadcastLinked(registry: Statuses, c: Client, down: seq<EnablingConditionNotification>,
                        m: EnablingConditionNotification, id: string)
    requires LinkedOn(registry, c, down, id)
    ensures LinkedOn(registry[m.id := m.status], c, down + [m], id)
  {
    NotesSnoc(down, m, id);
  }

  lemma RegisteredLinked(registry: Statuses, c: Client, down: seq<EnablingConditionNotification>, entity: string, id: string)
    requires LinkedOn(registry, c, down, id)
    ensures LinkedOn(Registered(registry, entity), c, down, id)
  {
  }

  /** Either nothing is sent, and the registry at most registers, or one change goes to everyone. */
  lemma ReactionCases(s: System, event: DiagnosticEvent)
    ensures var s' := RegistryStep(s, event); var sent := RegistryReacts(s.registry, event).1;
            && s'.clients == s.clients
            && (sent == [] ==>
                  s'.down == s.down && (s'.registry == s.registry
                                        || (event.EnablingConditionRegister? && s'.registry == Registered(s.registry, event.entity))))
            && (sent != [] ==> s'.down == ToAll(s.down, sent[0]) && s'.registry == s.registry[sent[0].id := sent[0].status])
  {
  }

  lemma RegistryStepLinked(s: System, event: DiagnosticEvent, j: nat, id: string)
    requires WellFormed(s) && j < |s.clients| && LinkedOn(s.registry, s.clients[j], s.down[j], id)
    ensures var s' := RegistryStep(s, event); LinkedOn(s'.registry, s'.clients[j], s'.down[j], id)
  {
    ReactionCases(s, event);
    var sent := RegistryReacts(s.registry, event).1;
    if sent != [] {
      BroadcastLinked(s.registry, s.clients[j], s.down[j], sent[0], id);
    } else if event.EnablingConditionRegister? {
      RegisteredLinked(s.registry, s.clients[j], s.down[j], event.entity, id);
    }
  }

  /** Once its change is taken in, the library that sent it no longer needs the message. */
  lemma TakenLinked(registry: Statuses, c: Client, down: seq<EnablingConditionNotification>, id: string)
    requires c.outbox != [] && LinkedOn(registry, c, down, id)
    requires c.outbox[0].EnablingConditionStatusChange? ==> StatusOf(registry, c.outbox[0].id) == Some(c.outbox[0].status)
    requires c.outbox[0].EnablingConditionRegister? ==> c.outbox[0].entity in registry
    ensures LinkedOn(registry, c.(outbox := c.outbox[1..]), down, id)
  {
    ChangesOfTail(c.outbox, id);
  }

  /** The registry takes a message: first its effect on every library, then the message is gone. */
  lemma ReceiveIsStepThenTake(s: System, i: nat)
    requires WellFormed(s) && i < |s.clients| && s.clients[i].outbox != []
    ensures var c := s.clients[i];
            var stepped := RegistryStep(s, c.outbox[0]);
            Next(s, RegistryReceives(i)) == stepped.(clients := s.clients[i := c.(outbox := c.outbox[1..])])
            && stepped.clients == s.clients
  {
  }

  lemma StepInforms(s: System, event: DiagnosticEvent)
    ensures var r := RegistryStep(s, event).registry;
            && (event.EnablingConditionStatusChange? ==> StatusOf(r, event.id) == Some(event.status))
            && (event.EnablingConditionRegister? ==> event.entity in r)
  {
  }

  lemma ReceiveLinked(s: System, i: nat, j: nat, id: string)
    requires WellFormed(s) && i < |s.clients| && s.clients[i].outbox != [] && j < |s.clients|
    requires LinkedOn(s.registry, s.clients[j], s.down[j], id)
    ensures var s' := Next(s, RegistryReceives(i)); LinkedOn(s'.registry, s'.clients[j], s'.down[j], id)
  {
    var event := s.clients[i].outbox[0];
    var stepped := RegistryStep(s, event);
    RegistryStepLinked(s, event, j, id);
    ReceiveIsStepThenTake(s, i);
    StepInforms(s, event);
    if j == i {
      TakenLinked(stepped.registry, s.clients[i], stepped.down[i], id);
    }
  }

  lemma NextConsistent(s: System, a: Action)
    requires WellFormed(s) && Consistent(s)
    ensures Consistent(Next(s, a))
  {
    var i, s' := a.client, Next(s, a);
    if i < |s.clients| {
      forall j, id | 0 <= j < |s.clients|
        ensures LinkedOn(s'.registry, s'.clients[j], s'.down[j], id)
      {
        assert LinkedOn(s.registry, s.clients[j], s.down[j], id);
        match a
        case RegistryReceives(_) =>
          if s.clients[i].outbox != [] {
            ReceiveLinked(s, i, j, id);
          }
        case ClientReceives(_) =>
          if j == i && s.down[i] != [] {
            LearnLinked(s.registry, s.clients[i], s.down[i], id);
          }
        case _ =>
          if j == i {
            ClientStepLinked(s.registry, s.clients[i], s.down[i], a, id);
          }
      }
    }
  }

  lemma {:induction false} ReachConsistent(n: nat, actions: seq<Action>)
    ensures Consistent(Reach(n, actions))
  {
    if actions != [] {
      ReachConsistent(n, actions[..|actions| - 1]);
      NextConsistent(Reach(n, actions[..|actions| - 1]), actions[|actions| - 1]);
    }
  }

  predicate Quiet(s: System) {
    (forall i :: 0 <= i < |s.clients| ==> s.clients[i].outbox == []) && (forall i :: 0 <= i < |s.down| ==> s.down[i] == [])
  }

  /**
   Whenever all channels are empty, every library that knows a condition holds the registry's
   status for it, however many libraries reported it and however the echoes crossed.
   */
  lemma QuiescentAgreement(n: nat, actions: seq<Action>, i: nat, id: string)
    requires i < n && Quiet(Reach(n, actions)) && id in Reach(n, actions).clients[i].conditions
    ensures var s := Reach(n, actions); id in s.registry && s.registry[id] == s.clients[i].conditions[id]
  {
    ReachConsistent(n, actions);
    var s := Reach(n, actions);
    assert LinkedOn(s.registry, s.clients[i], s.down[i], id);
  }

  /** A library that has not heard of a condition misses nothing but the initial status. */
  lemma UnknownIsInactive(n: nat, actions: seq<Action>, i: nat, id: string)
    requires i < n && Quiet(Reach(n, actions)) && id !in Reach(n, actions).clients[i].conditions
    ensures StatusOf(Reach(n, actions).registry, id) != Some(Active)
  {
    ReachConsistent(n, actions);
    var s := Reach(n, actions);
    assert LinkedOn(s.registry, s.clients[i], s.down[i], id);
  }

  // ---------------------------------------------------------------- a report gets through

  /** Library `i` holds a status that the registry has or is about to get, and nobody says otherwise. */
  predicate Prevailing(s: System, i: nat, id: string, status: EnablingConditionStatus)
    requires WellFormed(s) && i < |s.clients|
  {
    && StatusOf(s.clients[i].conditions, id) == Some(status)
    && (StatusOf(s.registry, id) == Some(status) || LastChange(s.clients[i].outbox, id) == Some(status))
    && (forall j :: 0 <= j < |s.clients| ==> OnlyReports(s.clients[j].outbox, id, status) && OnlyNotes(s.down[j], id, status))
  }

  predicate OnlyReports(q: seq<DiagnosticEvent>, id: string, status: EnablingConditionStatus) {
    forall e :: e in q && e.EnablingConditionStatusChange? && e.id == id ==> e.status == status
  }

  predicate OnlyNotes(q: seq<EnablingConditionNotification>, id: string, status: EnablingConditionStatus) {
    forall m :: m in q && m.id == id ==> m.status == status
  }

  lemma ReportPrevails(s: System, i: nat, id: ShortString, status: EnablingConditionStatus)
    requires WellFormed(s) && i < |s.clients| && Quiet(s)
    requires StatusOf(s.clients[i].conditions, id) == Some(status) ==> StatusOf(s.registry, id) == Some(status)
    ensures Prevailing(Next(s, Report(i, id, status)), i, id, status)
  {
    var s' := Next(s, Report(i, id, status));
    forall j | 0 <= j < |s'.clients|
      ensures OnlyReports(s'.clients[j].outbox, id, status) && OnlyNotes(s'.down[j], id, status)
    {
      assert s.clients[j].outbox == [] && s.down[j] == [];
    }
  }

  lemma ReceivePrevails(s: System, a: Action, i: nat, id: string, status: EnablingConditionStatus)
    requires WellFormed(s) && i < |s.clients| && Prevailing(s, i, id, status)
    requires a.RegistryReceives? || a.ClientReceives?
    ensures Prevailing(Next(s, a), i, id, status)
  {
    var s', j := Next(s, a), a.client;
    if j < |s.clients| {
      if a.RegistryReceives? && s.clients[j].outbox != [] {
        ChangesOfTail(s.clients[j].outbox, id);
        assert s.clients[j].outbox[0] in s.clients[j].outbox;
      } else if a.ClientReceives? && s.down[j] != [] {
        assert s.down[j][0] in s.down[j];
      }
      forall m | 0 <= m < |s'.clients|
        ensures OnlyReports(s'.clients[m].outbox, id, status) && OnlyNotes(s'.down[m], id, status)
      {
        assert OnlyReports(s.clients[m].outbox, id, status) && OnlyNotes(s.down[m], id, status);
      }
    }
  }

  lemma ReachNext(n: nat, actions: seq<Action>, more: seq<Action>)
    requires more != []
    ensures Reach(n, actions + more) == Next(Reach(n, actions + more[..|more| - 1]), more[|more| - 1])
  {
    assert (actions + more)[..|actions + more| - 1] == actions + more[..|more| - 1];
  }

  lemma {:induction false} DeliveryPrevails(n: nat, actions: seq<Action>, more: seq<Action>, i: nat, id: string,
                                            status: EnablingConditionStatus)
    requires i < n && OnlyReceives(more) && Prevailing(Reach(n, actions), i, id, status)
    ensures Prevailing(Reach(n, actions + more), i, id, status)
  {
    if more == [] {
      assert actions + [] == actions;
    } else {
      var front, a := more[..|more| - 1], more[|more| - 1];
      DeliveryPrevails(n, actions, front, i, id, status);
      ReachNext(n, actions, more);
      ReceivePrevails(Reach(n, actions + front), a, i, id, status);
    }
  }

  /**
   A library reports a status while nothing is under way. Once what that causes has been delivered,
   in whatever order, the registry and every library that knows the condition hold the status reported;
   and if it is active, every library knows it.
   */
  lemma ReportReachesAll(n: nat, actions: seq<Action>, i: nat, id: ShortString, status: EnablingConditionStatus,
                         more: seq<Action>, j: nat)
    requires i < n && j < n && Quiet(Reach(n, actions)) && OnlyReceives(more)
    requires Quiet(Reach(n, actions + [Report(i, id, status)] + more))
    ensures var s := Reach(n, actions + [Report(i, id, status)] + more);
            && StatusOf(s.registry, id) == Some(status)
            && StatusOf(s.clients[i].conditions, id) == Some(status)
            && (id in s.clients[j].conditions ==> s.clients[j].conditions[id] == status)
            && (status == Active ==> id in s.clients[j].conditions)
  {
    var before, reported := Reach(n, actions), actions + [Report(i, id, status)];
    assert reported[..|actions|] == actions;
    if id in before.clients[i].conditions {
      QuiescentAgreement(n, actions, i, id);
    }
    ReportPrevails(before, i, id, status);
    DeliveryPrevails(n, reported, more, i, id, status);
    if id in Reach(n, reported + more).clients[j].conditions {
      QuiescentAgreement(n, reported + more, j, id);
    } else {
      UnknownIsInactive(n, reported + more, j, id);
    }
  }

  // ---------------------------------------------------------------- the channels can always be emptied

  function TotalUp(clients: seq<Client>): nat {
    if clients == [] then 0 else TotalUp(clients[..|clients| - 1]) + |clients[|clients| - 1].outbox|
  }

  function TotalDown(down: seq<seq<EnablingConditionNotification>>): nat {
    if down == [] then 0 else TotalDown(down[..|down| - 1]) + |down[|down| - 1]|
  }

  lemma {:induction false} TotalUpAfter(clients: seq<Client>, i: nat, c: Client)
    requires i < |clients|
    ensures TotalUp(clients[i := c]) + |clients[i].outbox| == TotalUp(clients) + |c.outbox|
  {
    var n := |clients| - 1;
    if i == n {
      assert clients[i := c][..n] == clients[..n];
    } else {
      assert clients[i := c][..n] == clients[..n][i := c];
      TotalUpAfter(clients[..n], i, c);
    }
  }

  lemma {:induction false} TotalDownAfter(down: seq<seq<EnablingConditionNotification>>, i: nat, q: seq<EnablingConditionNotification>)
    requires i < |down|
    ensures TotalDown(down[i := q]) + |down[i]| == TotalDown(down) + |q|
  {
    var n := |down| - 1;
    if i == n {
      assert down[i := q][..n] == down[..n];
    } else {
      assert down[i := q][..n] == down[..n][i := q];
      TotalDownAfter(down[..n], i, q);
    }
  }

  lemma ReceiveShrinks(s: System, i: nat)
    requires WellFormed(s) && i < |s.clients|
    ensures s.clients[i].outbox != [] ==> TotalUp(Next(s, RegistryReceives(i)).clients) < TotalUp(s.clients)
    ensures s.down[i] != [] ==>
              var s' := Next(s, ClientReceives(i));
              TotalUp(s'.clients) == TotalUp(s.clients) && TotalDown(s'.down) < TotalDown(s.down)
  {
    var c := s.clients[i];
    if c.outbox != [] {
      ReceiveIsStepThenTake(s, i);
      TotalUpAfter(s.clients, i, c.(outbox := c.outbox[1..]));
    }
    if s.down[i] != [] {
      TotalUpAfter(s.clients, i, Learn(c, s.down[i][0].id, s.down[i][0].status));
      TotalDownAfter(s.down, i, s.down[i][1..]);
    }
  }

  predicate OnlyReceives(actions: seq<Action>) {
    forall i :: 0 <= i < |actions| ==> actions[i].RegistryReceives? || actions[i].ClientReceives?
  }

  lemma NextDelivery(s: System) returns (a: Action)
    requires WellFormed(s) && !Quiet(s)
    ensures a.client < |s.clients|
    ensures (a.RegistryReceives? && s.clients[a.client].outbox != []) || (a.ClientReceives? && s.down[a.client] != [])
  {
    var i :| 0 <= i < |s.clients| && (s.clients[i].outbox != [] || s.down[i] != []);
    a := if s.clients[i].outbox != [] then RegistryReceives(i) else ClientReceives(i);
  }

  /** From every reachable state, delivering what is under way leads to a quiet one. */
  lemma {:induction false} DeliveryQuiets(n: nat, actions: seq<Action>) returns (more: seq<Action>)
    ensures OnlyReceives(more) && Quiet(Reach(n, actions + more))
    decreases TotalUp(Reach(n, actions).clients), TotalDown(Reach(n, actions).down)
  {
    var s := Reach(n, actions);
    if Quiet(s) {
      assert actions + [] == actions;
      return [];
    }
    var a := NextDelivery(s);
    var i := a.client;
    assert (actions + [a])[..|actions|] == actions;
    ReceiveShrinks(s, i);
    var rest := DeliveryQuiets(n, actions + [a]);
    more := [a] + rest;
    assert actions + more == actions + [a] + rest;
  }

  // ---------------------------------------------------------------- alternation

  /** For every condition, the broadcasts strictly alternate and the last one is the registry's status. */
  lemma {:induction false} BroadcastsAlternate(n: nat, actions: seq<Action>, id: string)
    ensures LogFits(Reach(n, actions).registry, Reach(n, actions).broadcasts, id)
  {
    if actions != [] {
      var s, a := Reach(n, actions[..|actions| - 1]), actions[|actions| - 1];
      BroadcastsAlternate(n, actions[..|actions| - 1], id);
      if a.RegistryReceives? && a.client < |s.clients| && s.clients[a.client].outbox != [] {
        ReactionFits(s.registry, s.broadcasts, s.clients[a.client].outbox[0], id);
      }
    }
  }

  // ---------------------------------------------------------------- what a monitor is told

  function CallsOf(calls: seq<Call>, monitor: nat, id: string): seq<EnablingConditionStatus> {
    if calls == [] then []
    else
      var c := calls[|calls| - 1];
      CallsOf(calls[..|calls| - 1], monitor, id) + if c.monitor == monitor && c.condition == id then [c.status] else []
  }

  predicate Numbered(monitors: seq<Monitor>, below: nat) {
    monitors == []
    || (monitors[|monitors| - 1].id < below && Numbered(monitors[..|monitors| - 1], monitors[|monitors| - 1].id))
  }

  predicate Has(monitors: seq<Monitor>, monitor: nat) {
    monitors != [] && (monitors[|monitors| - 1].id == monitor || Has(monitors[..|monitors| - 1], monitor))
  }

  /** Does this registered monitor watch the condition? */
  predicate Watches(monitors: seq<Monitor>, monitor: nat, id: string) {
    monitors != []
    && ((monitors[|monitors| - 1].id == monitor && id in monitors[|monitors| - 1].conditionIds)
        || Watches(monitors[..|monitors| - 1], monitor, id))
  }

  lemma {:induction false} NumberedBounds(monitors: seq<Monitor>, below: nat, monitor: nat)
    requires Numbered(monitors, below) && Has(monitors, monitor)
    ensures monitor < below
  {
    if monitors[|monitors| - 1].id != monitor {
      NumberedBounds(monitors[..|monitors| - 1], monitors[|monitors| - 1].id, monitor);
    }
  }

  lemma {:induction false} WatchesHas(monitors: seq<Monitor>, monitor: nat, id: string)
    requires Watches(monitors, monitor, id)
    ensures Has(monitors, monitor)
  {
    var m := monitors[|monitors| - 1];
    if m.id != monitor {
      WatchesHas(monitors[..|monitors| - 1], monitor, id);
    }
  }

  lemma {:induction false} CallsOfConcat(a: seq<Call>, b: seq<Call>, monitor: nat, id: string)
    ensures CallsOf(a + b, monitor, id) == CallsOf(a, monitor, id) + CallsOf(b, monitor, id)
  {
    if b == [] {
      assert a + b == a;
    } else {
      assert (a + b)[..|a + b| - 1] == a + b[..|b| - 1];
      CallsOfConcat(a, b[..|b| - 1], monitor, id);
    }
  }

  /** A change calls each watching monitor once, and no other. */
  lemma {:induction false} DispatchCallsOnce(monitors: seq<Monitor>, below: nat, id: string, status: EnablingConditionStatus,
                                             monitor: nat, id': string)
    requires Numbered(monitors, below)
    ensures CallsOf(Dispatched(monitors, id, status), monitor, id') ==
            if id' == id && Watches(monitors, monitor, id) then [status] else []
  {
    if monitors != [] {
      var front, m := monitors[..|monitors| - 1], monitors[|monitors| - 1];
      DispatchCallsOnce(front, m.id, id, status, monitor, id');
      var last := if id in m.conditionIds then [Call(m.id, id, status)] else [];
      CallsOfConcat(Dispatched(front, id, status), last, monitor, id');
      if last != [] {
        assert [Call(m.id, id, status)][..0] == [];
      }
      if Watches(front, monitor, id) && m.id == monitor {
        WatchesHas(front, monitor, id);
        NumberedBounds(front, m.id, monitor);
      }
    }
  }

  /** What one monitor was told about one condition, against the library's status for it. */
  predicate ToldFits(c: Client, monitor: nat, id: string) {
    var told := CallsOf(c.calls, monitor, id);
    && Numbered(c.monitors, c.nextMonitor)
    && Alternates(told)
    && (told != [] ==> monitor < c.nextMonitor)
    && (told != [] && Has(c.monitors, monitor) ==>
          Watches(c.monitors, monitor, id) && StatusOf(c.conditions, id) == Some(told[|told| - 1]))
    && (told != [] ==> id in c.conditions)
  }

  /** The calls of one change, appended to those before it. */
  lemma ToldAfter(c: Client, id': string, status: EnablingConditionStatus, monitor: nat, id: string)
    requires Numbered(c.monitors, c.nextMonitor)
    ensures CallsOf(c.calls + Dispatched(c.monitors, id', status), monitor, id)
            == CallsOf(c.calls, monitor, id) + if id == id' && Watches(c.monitors, monitor, id') then [status] else []
    ensures Watches(c.monitors, monitor, id') ==> Has(c.monitors, monitor) && monitor < c.nextMonitor
  {
    CallsOfConcat(c.calls, Dispatched(c.monitors, id', status), monitor, id);
    DispatchCallsOnce(c.monitors, c.nextMonitor, id', status, monitor, id);
    if Watches(c.monitors, monitor, id') {
      WatchesHas(c.monitors, monitor, id');
      NumberedBounds(c.monitors, c.nextMonitor, monitor);
    }
  }

  lemma LearnTold(c: Client, id': string, status: EnablingConditionStatus, monitor: nat, id: string)
    requires ToldFits(c, monitor, id)
    ensures ToldFits(Learn(c, id', status), monitor, id)
  {
    if StatusOf(c.conditions, id') != Some(status) {
      ToldAfter(c, id', status, monitor, id);
    }
  }

  lemma {:induction false} NumberedBelow(monitors: seq<Monitor>, below: nat, above: nat)
    requires Numbered(monitors, below) && below <= above
    ensures Numbered(monitors, above)
  {
  }

  lemma AddMonitorTold(c: Client, conditionIds: seq<string>, monitor: nat, id: string)
    requires ToldFits(c, monitor, id)
    ensures ToldFits(AddMonitor(c, conditionIds), monitor, id)
  {
    var c' := AddMonitor(c, conditionIds);
    assert c'.monitors[..|c.monitors|] == c.monitors;
  }

  lemma {:induction false} WithoutKeeps(monitors: seq<Monitor>, below: nat, gone: nat, monitor: nat, id: string)
    requires Numbered(monitors, below)
    ensures Numbered(Without(monitors, gone), below)
    ensures Has(Without(monitors, gone), monitor) <==> Has(monitors, monitor) && monitor != gone
    ensures Watches(Without(monitors, gone), monitor, id) <==> Watches(monitors, monitor, id) && monitor != gone
  {
    if monitors != [] {
      var front, m := monitors[..|monitors| - 1], monitors[|monitors| - 1];
      WithoutKeeps(front, m.id, gone, monitor, id);
      var kept := Without(monitors, gone);
      if m.id != gone {
        assert kept[..|kept| - 1] == Without(front, gone);
      } else {
        assert kept == Without(front, gone);
        NumberedBelow(kept, m.id, below);
      }
    }
  }

  lemma ClientStepTold(c: Client, a: Action, monitor: nat, id: string)
    requires ToldFits(c, monitor, id)
    ensures ToldFits(ClientStep(c, a), monitor, id)
  {
    match a
    case Announce(_, entity) =>
    case Report(_, id', status) => LearnTold(c, id', status, monitor, id);
    case Watch(_, conditionIds) => AddMonitorTold(c, conditionIds, monitor, id);
    case Unwatch(_, gone) => WithoutKeeps(c.monitors, c.nextMonitor, gone, monitor, id);
    case _ =>
  }

  /**
   No monitor is ever told the same status of a condition twice in a row, and the last one it was
   told, while it is registered, is the library's current status.
   */
  lemma {:induction false} MonitorsAreToldChanges(n: nat, actions: seq<Action>, i: nat, monitor: nat, id: string)
    requires i < n
    ensures ToldFits(Reach(n, actions).clients[i], monitor, id)
  {
    if actions != [] {
      var s, a := Reach(n, actions[..|actions| - 1]), actions[|actions| - 1];
      MonitorsAreToldChanges(n, actions[..|actions| - 1], i, monitor, id);
      if a.client == i {
        match a
        case RegistryReceives(_) =>
        case ClientReceives(_) =>
          if s.down[i] != [] {
            LearnTold(s.clients[i], s.down[i][0].id, s.down[i][0].status, monitor, id);
          }
        case _ => ClientStepTold(s.clients[i], a, monitor, id);
      }
    }
  }
}
