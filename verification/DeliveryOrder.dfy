/**
 The order in which the transport accepts messages.

 Messages are numbered as they arrive. A message that waits for a retry can be accepted after one
 that arrived later: retries keep no order against first sends, nor against each other.
 */
module DeliveryOrder {
  import opened Basics
  import opened Debounce
  import opened DiagnosticEvents
  import opened RetryQueue
  import opened RetryLaws

  /** What may still be handed to the publisher: the queued messages, and those yet to come. */
  ghost predicate MayCome(b: Book, arrival: nat) {
    arrival >= b.arrivals || exists i :: 0 <= i < |b.queue| && b.queue[i].arrival == arrival
  }

  /** From `b` to `b'`, the calls made are of messages that could still come, and no old one came back. */
  ghost predicate Follows(b: Book, b': Book) {
    && b.published <= b'.published && b.arrivals <= b'.arrivals
    && (forall j :: |b.published| <= j < |b'.published| ==> MayCome(b, b'.published[j].arrival))
    && (forall i :: 0 <= i < |b'.queue| ==> MayCome(b, b'.queue[i].arrival))
  }

  lemma FollowsItself(b: Book)
    ensures Follows(b, b)
  {
  }

  lemma FollowsChain(a: Book, b: Book, c: Book)
    requires Follows(a, b) && Follows(b, c)
    ensures Follows(a, c)
  {
    forall arrival: nat | MayCome(b, arrival)
      ensures MayCome(a, arrival)
    {
      if arrival < b.arrivals {
        var i :| 0 <= i < |b.queue| && b.queue[i].arrival == arrival;
      }
    }
    forall j | |a.published| <= j < |c.published|
      ensures MayCome(a, c.published[j].arrival)
    {
      if j < |b.published| {
        assert c.published[j] == b.published[j];
      }
    }
  }

  lemma SettleFollows(b: Book, k: nat, fate: Fate)
    requires k < |b.queue|
    ensures Follows(b, Settle(b, k, fate))
  {
    var b' := Settle(b, k, fate);
    forall i | 0 <= i < |b'.queue|
      ensures MayCome(b, b'.queue[i].arrival)
    {
      assert b'.queue[i] == b.queue[if i < k then i else i + 1];
    }
  }

  lemma OfferedFollows(b: Book, k: nat, offer: Offer)
    requires k < |b.queue|
    ensures Follows(b, Offered(b, k, offer))
  {
  }

  lemma RetryEntryFollows(config: RetryConfig, b: Book, k: nat, now: Instant, sent: bool)
    requires k < |b.queue|
    ensures Follows(b, RetryEntry(config, b, k, now, sent).0)
  {
    var offered := Offered(b, k, Offer(now, sent));
    RetryEntryCases(config, b, k, now, sent);
    OfferedFollows(b, k, Offer(now, sent));
    SettleFollows(offered, k, Delivered);
    SettleFollows(offered, k, DroppedAtLimit);
    FollowsChain(b, offered, Settle(offered, k, Delivered));
    FollowsChain(b, offered, Settle(offered, k, DroppedAtLimit));
    FollowsItself(b);
    if b.queue[k].fault.attempts + 1 < config.maxRetries {
      var attempts := b.queue[k].fault.attempts + 1;
      PostponeFollows(config, offered, k, now, attempts);
      FollowsChain(b, offered, Postpone(config, offered, k, now, attempts));
    }
  }

  lemma PostponeFollows(config: RetryConfig, b: Book, k: nat, now: Instant, attempts: U32)
    requires k < |b.queue|
    ensures Follows(b, Postpone(config, b, k, now, attempts))
  {
    var b' := Postpone(config, b, k, now, attempts);
    assert forall i :: 0 <= i < |b.queue| ==> b'.queue[i].arrival == b.queue[i].arrival;
  }

  lemma {:induction false} RetryPassFollows(config: RetryConfig, b: Book, now: Instant, sends: nat -> bool, k: nat, i: nat)
    requires k <= |b.queue|
    ensures Follows(b, RetryPass(config, b, now, sends, k, i))
    decreases |b.queue| - k
  {
    if k == |b.queue| {
      FollowsItself(b);
    } else {
      var (b', stays) := RetryEntry(config, b, k, now, sends(i));
      RetryEntryFollows(config, b, k, now, sends(i));
      RetryPassFollows(config, b', now, sends, if stays then k + 1 else k, i + 1);
      FollowsChain(b, b', RetryPass(config, b', now, sends, if stays then k + 1 else k, i + 1));
    }
  }

  lemma FlushFrontFollows(b: Book, sent: bool)
    requires b.queue != []
    ensures Follows(b, FlushFront(b, sent))
  {
    var b' := FlushFront(b, sent);
    assert b'.queue == b.queue[1..];
  }

  lemma {:induction false} FlushPassFollows(b: Book, sends: nat -> bool, i: nat)
    ensures Follows(b, FlushPass(b, sends, i))
    decreases |b.queue|
  {
    if b.queue == [] {
      FollowsItself(b);
    } else {
      FlushFrontFollows(b, sends(i));
      FlushPassFollows(FlushFront(b, sends(i)), sends, i + 1);
      FollowsChain(b, FlushFront(b, sends(i)), FlushPass(FlushFront(b, sends(i)), sends, i + 1));
    }
  }

  lemma FirstSendFollows(b: Book, event: DiagnosticEvent, sent: bool)
    ensures Follows(b, FirstSend(b, event, sent))
  {
  }

  lemma PushFollows(b: Book, event: DiagnosticEvent, arrival: nat, now: Instant)
    requires MayCome(b, arrival)
    ensures Follows(b, Push(b, event, arrival, now))
  {
    var b' := Push(b, event, arrival, now);
    forall i | 0 <= i < |b'.queue|
      ensures MayCome(b, b'.queue[i].arrival)
    {
      if i < |b.queue| {
        assert b'.queue[i] == b.queue[i];
      }
    }
  }

  lemma SendFailedFollows(config: RetryConfig, b: Book, event: DiagnosticEvent, now: Instant)
    ensures Follows(b, CacheStep(config, FirstSend(b, event, false), event, b.arrivals, now))
  {
    var roomy := if |b.queue| >= config.cacheCapacity && b.queue != [] then Settle(b, 0, Evicted) else b;
    FollowsItself(b);
    if b.queue != [] {
      SettleFollows(b, 0, Evicted);
    }
    PushFollows(roomy, event, b.arrivals, now);
    FollowsChain(b, roomy, Push(roomy, event, b.arrivals, now));
    var after := CacheStep(config, FirstSend(b, event, false), event, b.arrivals, now);
    assert after.queue == Push(roomy, event, b.arrivals, now).queue;
  }

  lemma StepFollows(config: RetryConfig, b: Book, op: QueueOp)
    ensures Follows(b, QueueStep(config, b, op))
  {
    match op
    case SentOnce(event, sent) => FirstSendFollows(b, event, sent);
    case SendFailed(event, error, now) =>
      FirstSendFollows(b, event, false);
      SendFailedFollows(config, b, event, now);
    case Retry(now, sends) => RetryPassFollows(config, b, now, sends, 0, 0);
    case Flush(sends) => FlushPassFollows(b, sends, 0);
  }

  lemma {:induction false} RunFollows(config: RetryConfig, ops: seq<QueueOp>, more: seq<QueueOp>)
    ensures Follows(RunQueue(config, ops), RunQueue(config, ops + more))
  {
    if more == [] {
      assert ops + more == ops;
      FollowsItself(RunQueue(config, ops));
    } else {
      var rest, op := more[..|more| - 1], more[|more| - 1];
      assert ops + more == ops + rest + [op];
      RunFollows(config, ops, rest);
      RunQueueSnoc(config, ops + rest, op);
      StepFollows(config, RunQueue(config, ops + rest), op);
      FollowsChain(RunQueue(config, ops), RunQueue(config, ops + rest), RunQueue(config, ops + more));
    }
  }

  // ---------------------------------------------------------------- the theorem

  /** In this future, a message that arrived before message `n` is accepted. */
  predicate OlderComesLater(config: RetryConfig, ops: seq<QueueOp>, more: seq<QueueOp>, n: nat) {
    var b, b' := RunQueue(config, ops), RunQueue(config, ops + more);
    exists j :: |b.published| <= j < |b'.published| && b'.published[j].sent && b'.published[j].arrival < n
  }

  predicate OlderIsQueued(b: Book, n: nat) {
    exists i :: 0 <= i < |b.queue| && b.queue[i].arrival < n
  }

  function FlushedCalls(queue: seq<Tracked>, sends: nat -> bool, i: nat): (calls: seq<Handed>)
    ensures |calls| == |queue|
    ensures forall k :: 0 <= k < |queue| ==> calls[k] == Handed(queue[k].arrival, queue[k].fault.event, sends(i + k))
  {
    seq(|queue|, k requires 0 <= k < |queue| => Handed(queue[k].arrival, queue[k].fault.event, sends(i + k)))
  }

  lemma FirstFlushed(queue: seq<Tracked>, sends: nat -> bool, i: nat)
    requires queue != []
    ensures FlushedCalls(queue, sends, i)
            == [Handed(queue[0].arrival, queue[0].fault.event, sends(i))] + FlushedCalls(queue[1..], sends, i + 1)
  {
  }

  /** A flush hands over the whole queue, in order. */
  lemma {:induction false} FlushHands(b: Book, sends: nat -> bool, i: nat)
    ensures FlushPass(b, sends, i).published == b.published + FlushedCalls(b.queue, sends, i)
    decreases |b.queue|
  {
    if b.queue == [] {
      assert b.published + [] == b.published;
    } else {
      var first := Handed(b.queue[0].arrival, b.queue[0].fault.event, sends(i));
      var rest := FlushedCalls(b.queue[1..], sends, i + 1);
      FlushFrontHands(b, sends(i));
      FlushHands(FlushFront(b, sends(i)), sends, i + 1);
      FirstFlushed(b.queue, sends, i);
      Regroup(b.published, [first], rest);
    }
  }

  lemma FlushFrontHands(b: Book, sent: bool)
    requires b.queue != []
    ensures var b' := FlushFront(b, sent);
            && b'.queue == b.queue[1..]
            && b'.published == b.published + [Handed(b.queue[0].arrival, b.queue[0].fault.event, sent)]
  {
  }

  lemma FlushBringsOlder(config: RetryConfig, ops: seq<QueueOp>, n: nat)
    requires OlderIsQueued(RunQueue(config, ops), n)
    ensures OlderComesLater(config, ops, [Flush(_ => true)], n)
  {
    var b, flush := RunQueue(config, ops), Flush(_ => true);
    var k :| 0 <= k < |b.queue| && b.queue[k].arrival < n;
    RunQueueSnoc(config, ops, flush);
    FlushHands(b, flush.sends, 0);
    var j, published := |b.published| + k, RunQueue(config, ops + [flush]).published;
    assert published[j] == FlushedCalls(b.queue, flush.sends, 0)[k];
  }

  /**
   Some future accepts an older message after this moment exactly if an older one is queued now:
   for every message `n` that has arrived, whether it was accepted at once or by a retry.
   */
  lemma OrderIsLost(config: RetryConfig, ops: seq<QueueOp>, n: nat)
    requires n <= RunQueue(config, ops).arrivals
    ensures (exists more :: OlderComesLater(config, ops, more, n)) <==> OlderIsQueued(RunQueue(config, ops), n)
  {
    var b := RunQueue(config, ops);
    forall more | OlderComesLater(config, ops, more, n)
      ensures OlderIsQueued(b, n)
    {
      RunFollows(config, ops, more);
      var b' := RunQueue(config, ops + more);
      var j :| |b.published| <= j < |b'.published| && b'.published[j].sent && b'.published[j].arrival < n;
      assert MayCome(b, b'.published[j].arrival);
    }
    if OlderIsQueued(b, n) {
      FlushBringsOlder(config, ops, n);
    }
  }

  predicate AllArrived(b: Book) {
    forall i :: 0 <= i < |b.queue| ==> b.queue[i].arrival < b.arrivals
  }

  lemma {:induction false} QueuedHaveArrived(config: RetryConfig, ops: seq<QueueOp>)
    ensures AllArrived(RunQueue(config, ops))
  {
    if ops != [] {
      var front, op := ops[..|ops| - 1], ops[|ops| - 1];
      QueuedHaveArrived(config, front);
      StepArrivals(config, RunQueue(config, front), op);
    }
  }

  lemma StepArrivals(config: RetryConfig, b: Book, op: QueueOp)
    requires AllArrived(b)
    ensures AllArrived(QueueStep(config, b, op))
  {
    match op
    case SentOnce(_, _) =>
    case SendFailed(event, error, now) => SendFailedArrivals(config, b, event, now);
    case Retry(now, sends) => RetryPassArrivals(config, b, now, sends, 0, 0);
    case Flush(sends) => FlushEmptiesQueue(b, sends, 0);
  }

  lemma SendFailedArrivals(config: RetryConfig, b: Book, event: DiagnosticEvent, now: Instant)
    requires AllArrived(b)
    ensures AllArrived(FirstSend(b, event, false))
    ensures AllArrived(CacheStep(config, FirstSend(b, event, false), event, b.arrivals, now))
  {
    if b.queue != [] {
      assert Settle(b, 0, Evicted).queue == b.queue[1..];
      assert Settle(FirstSend(b, event, false), 0, Evicted).queue == b.queue[1..];
    }
  }

  lemma RetryEntryArrivals(config: RetryConfig, b: Book, k: nat, now: Instant, sent: bool)
    requires k < |b.queue| && AllArrived(b)
    ensures AllArrived(RetryEntry(config, b, k, now, sent).0)
  {
    RetryEntryCases(config, b, k, now, sent);
  }

  lemma {:induction false} RetryPassArrivals(config: RetryConfig, b: Book, now: Instant, sends: nat -> bool, k: nat, i: nat)
    requires k <= |b.queue| && AllArrived(b)
    ensures AllArrived(RetryPass(config, b, now, sends, k, i))
    decreases |b.queue| - k
  {
    if k < |b.queue| {
      var (b', stays) := RetryEntry(config, b, k, now, sends(i));
      RetryEntryArrivals(config, b, k, now, sends(i));
      RetryPassArrivals(config, b', now, sends, if stays then k + 1 else k, i + 1);
    }
  }

  lemma {:induction false} FlushEmptiesQueue(b: Book, sends: nat -> bool, i: nat)
    ensures FlushPass(b, sends, i).queue == []
    decreases |b.queue|
  {
    if b.queue != [] {
      FlushEmptiesQueue(FlushFront(b, sends(i)), sends, i + 1);
    }
  }

  /** A message accepted at once is overtaken by nothing exactly if nothing was waiting then. */
  lemma DirectSendOvertakes(config: RetryConfig, ops: seq<QueueOp>, event: DiagnosticEvent)
    ensures var n := RunQueue(config, ops).arrivals;
            var after := ops + [SentOnce(event, true)];
            && RunQueue(config, after).published == RunQueue(config, ops).published + [Handed(n, event, true)]
            && ((exists more :: OlderComesLater(config, after, more, n)) <==> RunQueue(config, ops).queue != [])
  {
    var b := RunQueue(config, ops);
    var after := ops + [SentOnce(event, true)];
    RunQueueSnoc(config, ops, SentOnce(event, true));
    QueuedHaveArrived(config, ops);
    OrderIsLost(config, after, b.arrivals);
    if b.queue != [] {
      assert RunQueue(config, after).queue[0].arrival < b.arrivals;
    }
  }
}
