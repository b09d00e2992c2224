/** The worker thread of the fault library: it sends, retries, and flushes before it ends. */
module IpcWorker {
  import opened Basics
  import opened Debounce
  import opened DiagnosticEvents
  import opened Reporter
  import opened EnablingConditions
  import opened RetryQueue
  import opened RetryLaws
  import opened RetryPasses

  /** What one turn of the worker's loop receives; `refused` is the transport's answer to the message. */
  datatype Received =
    | Message(event: DiagnosticEvent, refused: Option<SinkError>, at: Instant)
    | Start | TimedOut | Exit

  /** A turn, with the clock and the publisher's answers of its retry pass, and the notifications polled after it. */
  datatype Turn = Turn(
    received: Received,
    retryAt: Instant,
    sends: nat -> bool,
    notified: seq<EnablingConditionNotification>)

  /** Only fault events are retried; hashes and enabling conditions are not. */
  function ReceiveOps(r: Received): seq<QueueOp> {
    if !r.Message? then []
    else if r.refused.Some? && r.event.Fault? then [SendFailed(r.event, r.refused.value, r.at)]
    else [SentOnce(r.event, r.refused.None?)]
  }

  /** What the loop does until it is told to exit or the channel is gone. */
  function LoopOps(turns: seq<Turn>): seq<QueueOp> {
    if turns == [] || turns[0].received.Exit? then []
    else ReceiveOps(turns[0].received) + [Retry(turns[0].retryAt, turns[0].sends)] + LoopOps(turns[1..])
  }

  /** A library that is told of changes from elsewhere, in order. */
  function LearnAll(c: Client, notified: seq<EnablingConditionNotification>): Client {
    if notified == [] then c
    else
      var n := |notified| - 1;
      Learn(LearnAll(c, notified[..n]), notified[n].id, notified[n].status)
  }

  function LoopLearns(c: Client, turns: seq<Turn>): Client
    decreases |turns|
  {
    if turns == [] || turns[0].received.Exit? then c else LoopLearns(LearnAll(c, turns[0].notified), turns[1..])
  }

  // ---------------------------------------------------------------- turn by turn

  /**
   What one message does: it is handed to the publisher once, and a fault that was refused for a
   reason that may pass is queued behind the others, in the place of the oldest if the queue is full.
   */
  predicate Taken(config: RetryConfig, r: Received, b: Book, after: Book) {
    if !r.Message? then after == b
    else
      && after.arrivals == b.arrivals + 1 && after.offers == b.offers
      && after.published == b.published + [Handed(b.arrivals, r.event, r.refused.None?)]
      && if r.event.Fault? && r.refused.Some?
            && (r.refused.value == TransportDown || r.refused.value == Timeout
                || r.refused.value == QueueFull || r.refused.value == RateLimited)
         then
           && after.cached == b.cached + [r.event]
           && after.queue == (if |b.queue| >= config.cacheCapacity && b.queue != [] then b.queue[1..] else b.queue)
                             + [Tracked(|b.cached|, b.arrivals, CachedFault(r.event, 0, r.at))]
           && after.fates == (if |b.queue| >= config.cacheCapacity && b.queue != []
                              then b.fates[b.queue[0].serial := Evicted] else b.fates)
         else after.cached == b.cached && after.queue == b.queue && after.fates == b.fates
  }

  /** One turn: a message is taken, then the whole queue is passed over. */
  ghost predicate TurnWorked(config: RetryConfig, turn: Turn, b: Book, after: Book) {
    exists taken ::
      Taken(config, turn.received, b, taken) && PassedOver(config, taken, after, turn.retryAt, turn.sends)
  }

  /** One turn after the other, up to the first that receives Exit. */
  ghost predicate TurnsWorked(config: RetryConfig, turns: seq<Turn>, books: seq<Book>) {
    && 1 <= |books| <= |turns| + 1
    && (forall i :: 0 <= i < |books| - 1 ==> !turns[i].received.Exit? && TurnWorked(config, turns[i], books[i], books[i + 1]))
    && (|books| == |turns| + 1 || turns[|books| - 1].received.Exit?)
  }

  lemma ReceiveTakes(config: RetryConfig, ops: seq<QueueOp>, r: Received)
    requires !r.Exit?
    ensures Taken(config, r, RunQueue(config, ops), RunQueue(config, ops + ReceiveOps(r)))
  {
    if r.Message? {
      RunQueueSnoc(config, ops, ReceiveOps(r)[0]);
    } else {
      assert ops + [] == ops;
    }
  }

  lemma TurnWorks(config: RetryConfig, ops: seq<QueueOp>, turn: Turn)
    requires !turn.received.Exit?
    ensures TurnWorked(config, turn, RunQueue(config, ops),
                       RunQueue(config, ops + (ReceiveOps(turn.received) + [Retry(turn.retryAt, turn.sends)])))
  {
    var taken, retry := ops + ReceiveOps(turn.received), Retry(turn.retryAt, turn.sends);
    ReceiveTakes(config, ops, turn.received);
    RunIsLawful(config, taken);
    PassIsOver(config, RunQueue(config, taken), turn.retryAt, turn.sends);
    RunQueueSnoc(config, taken, retry);
    Regroup(ops, ReceiveOps(turn.received), [retry]);
  }

  lemma TurnBefore(config: RetryConfig, turns: seq<Turn>, b: Book, rest: seq<Book>)
    requires turns != [] && !turns[0].received.Exit? && TurnsWorked(config, turns[1..], rest)
    requires TurnWorked(config, turns[0], b, rest[0])
    ensures TurnsWorked(config, turns, [b] + rest)
    ensures ([b] + rest)[0] == b && ([b] + rest)[|rest|] == rest[|rest| - 1]
  {
    var books := [b] + rest;
    forall i | 0 <= i < |books| - 1
      ensures !turns[i].received.Exit? && TurnWorked(config, turns[i], books[i], books[i + 1])
    {
      if i > 0 {
        assert turns[i] == turns[1..][i - 1] && books[i] == rest[i - 1] && books[i + 1] == rest[i];
      }
    }
  }

  lemma FlushEnds(config: RetryConfig, ops: seq<QueueOp>, sends: nat -> bool)
    ensures FlushedOut(RunQueue(config, ops), RunQueue(config, ops + [Flush(sends)]), sends)
  {
    FlushIsOut(config, RunQueue(config, ops), sends);
    RunQueueSnoc(config, ops, Flush(sends));
  }

  /** What the loop does to the queue is the turns, worked one by one. */
  lemma {:induction false} TurnsWork(config: RetryConfig, ops: seq<QueueOp>, turns: seq<Turn>) returns (books: seq<Book>)
    ensures TurnsWorked(config, turns, books)
    ensures books[0] == RunQueue(config, ops) && books[|books| - 1] == RunQueue(config, ops + LoopOps(turns))
    decreases |turns|
  {
    if turns == [] || turns[0].received.Exit? {
      assert ops + [] == ops;
      books := [RunQueue(config, ops)];
    } else {
      var first := ReceiveOps(turns[0].received) + [Retry(turns[0].retryAt, turns[0].sends)];
      TurnWorks(config, ops, turns[0]);
      var rest := TurnsWork(config, ops + first, turns[1..]);
      Regroup(ops, first, LoopOps(turns[1..]));
      TurnBefore(config, turns, RunQueue(config, ops), rest);
      books := [RunQueue(config, ops)] + rest;
    }
  }

  /** One notification: a change is stored and the watching monitors are called, a repeat is ignored. */
  predicate Told(c: Client, n: EnablingConditionNotification, after: Client) {
    if n.id in c.conditions && c.conditions[n.id] == n.status then after == c
    else after == c.(conditions := c.conditions[n.id := n.status], calls := c.calls + Dispatched(c.monitors, n.id, n.status))
  }

  /** All notifications of a turn, each after the one before it. */
  predicate ToldInOrder(notified: seq<EnablingConditionNotification>, clients: seq<Client>) {
    && |clients| == |notified| + 1
    && forall j :: 0 <= j < |notified| ==> Told(clients[j], notified[j], clients[j + 1])
  }

  ghost predicate TurnTold(turn: Turn, c: Client, after: Client) {
    exists clients: seq<Client> ::
      ToldInOrder(turn.notified, clients) && clients[0] == c && clients[|turn.notified|] == after
  }

  lemma {:induction false} LearningIsTold(c: Client, notified: seq<EnablingConditionNotification>) returns (clients: seq<Client>)
    ensures ToldInOrder(notified, clients) && clients[0] == c && clients[|notified|] == LearnAll(c, notified)
  {
    if notified == [] {
      clients := [c];
    } else {
      var n := |notified| - 1;
      var front := LearningIsTold(c, notified[..n]);
      clients := front + [LearnAll(c, notified)];
      forall j | 0 <= j < |notified|
        ensures Told(clients[j], notified[j], clients[j + 1])
      {
        assert j < n ==> notified[..n][j] == notified[j];
      }
    }
  }

  ghost predicate TurnsTold(turns: seq<Turn>, clients: seq<Client>) {
    && 1 <= |clients| <= |turns| + 1
    && forall i :: 0 <= i < |clients| - 1 ==> TurnTold(turns[i], clients[i], clients[i + 1])
  }

  /** What the loop tells the library, turn by turn. */
  lemma {:induction false} TurnsTell(c: Client, turns: seq<Turn>, n: nat) returns (clients: seq<Client>)
    requires n <= |turns| && (forall i :: 0 <= i < n ==> !turns[i].received.Exit?) && (n == |turns| || turns[n].received.Exit?)
    ensures |clients| == n + 1 && clients[0] == c && clients[n] == LoopLearns(c, turns) && TurnsTold(turns, clients)
    decreases n
  {
    if n == 0 {
      clients := [c];
    } else {
      var _ := LearningIsTold(c, turns[0].notified);
      assert forall i :: 0 <= i < n - 1 ==> turns[1..][i] == turns[i + 1];
      var rest := TurnsTell(LearnAll(c, turns[0].notified), turns[1..], n - 1);
      clients := [c] + rest;
      forall i | 0 <= i < n
        ensures TurnTold(turns[i], clients[i], clients[i + 1])
      {
        if i > 0 {
          assert turns[i] == turns[1..][i - 1] && clients[i] == rest[i - 1] && clients[i + 1] == rest[i];
        }
      }
    }
  }

  class IpcWorker {
    const state: IpcWorkerState
    const publisher: Publisher
    const conditions: EnablingConditionManager

    ghost predicate Valid()
      reads state, publisher
    {
      state.publisher == publisher && state.Valid()
    }

    constructor (config: RetryConfig, conditions: EnablingConditionManager)
      ensures fresh(state) && fresh(publisher) && Valid() && state.ops == [] && state.config == config
      ensures this.conditions == conditions
    {
      var p := new Publisher();
      publisher := p;
      state := new IpcWorkerState(config, p);
      this.conditions := conditions;
    }

    /** Send a message; keep a fault that could not be sent. */
    method Receive(r: Received)
      requires Valid() && !r.Exit?
      modifies state, publisher
      ensures Valid() && state.ops == old(state.ops) + ReceiveOps(r)
    {
      match r
      case Message(event, refused, at) =>
        publisher.Publish(event, refused.None?);
        if refused.Some? && event.Fault? {
          state.HandleSendFailure(event, refused.value, at);
        } else {
          state.NoteSentOnce(event, refused.None?);
        }
      case Start =>
      case TimedOut =>
    }

    /** Pass on what the manager broadcast. */
    method PollNotifications(notified: seq<EnablingConditionNotification>)
      modifies conditions
      ensures conditions.View() == LearnAll(old(conditions.View()), notified)
    {
      for i := 0 to |notified|
        invariant conditions.View() == LearnAll(old(conditions.View()), notified[..i])
      {
        assert notified[..i + 1][..i] == notified[..i];
        conditions.HandleRemoteNotification(notified[i].id, notified[i].status);
      }
      assert notified[..|notified|] == notified;
    }

    /**
     The worker waits for a first message, which is meant to be Start. Whatever it is, even a fault
     or Exit, it is taken and forgotten. Then the loop runs; the end of `turns` is the end of the
     channel, and so is a missing first message.
     */
    method Run(first: Option<Received>, turns: seq<Turn>, flushSends: nat -> bool)
      returns (ghost books: seq<Book>, ghost clients: seq<Client>)
      requires Valid()
      requires first != Some(TimedOut) && (first.None? ==> turns == [])
      modifies state, publisher, conditions
      ensures Valid() && state.retryQueue == []
      ensures state.ops == old(state.ops) + LoopOps(turns) + [Flush(flushSends)]
      ensures publisher.calls == Visible(RunQueue(state.config, state.ops).published)
      ensures conditions.View() == LoopLearns(old(conditions.View()), turns)
      ensures TurnsWorked(state.config, turns, books) && books[0] == RunQueue(state.config, old(state.ops))
      ensures FlushedOut(books[|books| - 1], RunQueue(state.config, state.ops), flushSends)
      ensures TurnsTold(turns, clients) && |clients| == |books|
      ensures clients[0] == old(conditions.View()) && clients[|clients| - 1] == conditions.View()
    {
      ghost var opsBefore, viewBefore := state.ops, conditions.View();
      Loop(turns);
      books := TurnsWork(state.config, opsBefore, turns);
      clients := TurnsTell(viewBefore, turns, |books| - 1);
      FlushEnds(state.config, state.ops, flushSends);
      state.FinalFlush(flushSends);
    }

    /** The loop itself, up to Exit or the end of the channel. */
    method Loop(turns: seq<Turn>)
      requires Valid()
      modifies state, publisher, conditions
      ensures Valid() && state.ops == old(state.ops) + LoopOps(turns)
      ensures conditions.View() == LoopLearns(old(conditions.View()), turns)
    {
      var i := 0;
      assert turns[0..] == turns;
      while i < |turns|
        invariant 0 <= i <= |turns|
        invariant Valid()
        invariant state.ops + LoopOps(turns[i..]) == old(state.ops) + LoopOps(turns)
        invariant LoopLearns(conditions.View(), turns[i..]) == LoopLearns(old(conditions.View()), turns)
      {
        var turn := turns[i];
        assert turns[i..][0] == turn && turns[i..][1..] == turns[i + 1..];
        if turn.received.Exit? {
          break;
        }
        ghost var before := state.ops;
        Receive(turn.received);
        state.ProcessRetries(turn.retryAt, turn.sends);
        PollNotifications(turn.notified);
        Regroup(before, ReceiveOps(turn.received), [Retry(turn.retryAt, turn.sends)]);
        Regroup(before, ReceiveOps(turn.received) + [Retry(turn.retryAt, turn.sends)], LoopOps(turns[i + 1..]));
        i := i + 1;
      }
      assert state.ops == old(state.ops) + LoopOps(turns);
    }
  }

  /**
   When the worker has ended, every fault whose sending failed for a passing reason has exactly
   one fate: delivered, dropped at the limit, evicted, or lost in the flush.
   */
  lemma WorkerAccountsForAll(config: RetryConfig, turns: seq<Turn>, flushSends: nat -> bool)
    ensures var b := RunQueue(config, LoopOps(turns) + [Flush(flushSends)]);
            && b.queue == []
            && b.cached == TransientFailures(LoopOps(turns))
            && forall n: nat :: n in b.fates <==> n < |b.cached|
  {
    var ops := LoopOps(turns) + [Flush(flushSends)];
    FlushEmpties(config, LoopOps(turns), flushSends);
    RunIsLawful(config, ops);
    CachedAreTransientFailures(config, ops);
    assert ops[..|ops| - 1] == LoopOps(turns);
    assert TransientFailures(ops) == TransientFailures(LoopOps(turns)) + [];
  }
}
