/**
 The worker's queue of events that could not be sent.

 Each cached event carries a serial number and, in the ghost book of the queue, the list of
 offers made for it and the way it left. The laws of the book are in `RetryLaws`.
 */
module RetryQueue {
  import opened Basics
  import opened Debounce
  import opened DiagnosticEvents
  import opened Reporter

  const SECOND: Duration := 1_000_000_000
  const MILLISECOND: Duration := 1_000_000
  /** The longest representable duration: all 64 bits of seconds, and the nanoseconds below one more. */
  const DURATION_MAX: Duration := U64_MAX * SECOND + 999_999_999

  datatype RetryConfig = RetryConfig(
    maxRetries: U32,
    cacheCapacity: nat,
    retryInterval: Duration,
    maxRetryInterval: Duration)

  const DEFAULT_CONFIG := RetryConfig(10, 512, 100 * MILLISECOND, 5 * SECOND)

  datatype CachedFault = CachedFault(event: DiagnosticEvent, attempts: U32, nextRetry: Instant)

  function PowerOfTwo(n: nat): nat {
    if n == 0 then 1 else 2 * PowerOfTwo(n - 1)
  }

  function BackoffDelay(config: RetryConfig, attempts: nat): Duration {
    var multiplier := Min(PowerOfTwo(Min(attempts, 10)), U32_MAX);
    Min(Min(config.retryInterval * multiplier, DURATION_MAX), config.maxRetryInterval)
  }

  predicate IsTransient(e: SinkError) {
    e.TransportDown? || e.Timeout? || e.QueueFull? || e.RateLimited?
  }

  // ---------------------------------------------------------------- the book

  /** One call of the retry publisher. */
  datatype Offer = Offer(at: Instant, sent: bool)

  datatype Fate = Delivered | DroppedAtLimit | Evicted | LostInFlush

  /** `serial` counts the cached events, `arrival` all messages the worker was given. */
  datatype Tracked = Tracked(serial: nat, arrival: nat, fault: CachedFault)

  /** One call of the publisher: the message it was made for, and whether it was accepted. */
  datatype Handed = Handed(arrival: nat, event: DiagnosticEvent, sent: bool)

  /**
   Every event cached so far, by serial number; `fates` has those that left the queue again, and
   `published` every call of the publisher, first sends, retries and the flush, in order.
   */
  datatype Book = Book(
    cached: seq<DiagnosticEvent>,
    queue: seq<Tracked>,
    fates: map<nat, Fate>,
    offers: map<nat, seq<Offer>>,
    arrivals: nat,
    published: seq<Handed>)

  const EMPTY_BOOK := Book([], [], map[], map[], 0, [])

  function EntriesOf(queue: seq<Tracked>): seq<CachedFault> {
    seq(|queue|, i requires 0 <= i < |queue| => queue[i].fault)
  }

  function OffersOf(b: Book, n: nat): seq<Offer> {
    if n in b.offers then b.offers[n] else []
  }

  /** Entry `k` leaves the queue. */
  function Settle(b: Book, k: nat, fate: Fate): Book
    requires k < |b.queue|
  {
    b.(queue := b.queue[..k] + b.queue[k + 1..], fates := b.fates[b.queue[k].serial := fate])
  }

  /** Entry `k` is offered once more. */
  function Offered(b: Book, k: nat, offer: Offer): Book
    requires k < |b.queue|
  {
    var n := b.queue[k].serial;
    b.(offers := b.offers[n := OffersOf(b, n) + [offer]],
       published := b.published + [Handed(b.queue[k].arrival, b.queue[k].fault.event, offer.sent)])
  }

  /** Entry `k` stays, to be offered again after the backoff. */
  function Postpone(config: RetryConfig, b: Book, k: nat, now: Instant, attempts: U32): Book
    requires k < |b.queue|
  {
    var e := b.queue[k];
    b.(queue := b.queue[k := e.(fault := CachedFault(e.fault.event, attempts, now + BackoffDelay(config, attempts)))])
  }

  /** A message is handed to the publisher for the first time. */
  function FirstSend(b: Book, event: DiagnosticEvent, sent: bool): Book {
    b.(arrivals := b.arrivals + 1, published := b.published + [Handed(b.arrivals, event, sent)])
  }

  function Push(b: Book, event: DiagnosticEvent, arrival: nat, now: Instant): Book {
    b.(cached := b.cached + [event], queue := b.queue + [Tracked(|b.cached|, arrival, CachedFault(event, 0, now))])
  }

  function CacheStep(config: RetryConfig, b: Book, event: DiagnosticEvent, arrival: nat, now: Instant): Book {
    Push(if |b.queue| >= config.cacheCapacity && b.queue != [] then Settle(b, 0, Evicted) else b, event, arrival, now)
  }

  /** Entry `k` of a retry pass: what becomes of it, and whether it stays. */
  function RetryEntry(config: RetryConfig, b: Book, k: nat, now: Instant, sent: bool): (Book, bool)
    requires k < |b.queue|
  {
    var f := b.queue[k].fault;
    if f.nextRetry > now then (b, true)
    else
      var attempts := f.attempts + 1;
      var offered := Offered(b, k, Offer(now, sent));
      if sent then (Settle(offered, k, Delivered), false)
      else if attempts < config.maxRetries then (Postpone(config, offered, k, now, attempts), true)
      else (Settle(offered, k, DroppedAtLimit), false)
  }

  /** The rest of a retry pass: `k` entries were kept, `i` were looked at; `sends(i)` is the publisher's answer. */
  function RetryPass(config: RetryConfig, b: Book, now: Instant, sends: nat -> bool, k: nat, i: nat): Book
    requires k <= |b.queue|
    decreases |b.queue| - k
  {
    if k == |b.queue| then b
    else
      var (b', stays) := RetryEntry(config, b, k, now, sends(i));
      RetryPass(config, b', now, sends, if stays then k + 1 else k, i + 1)
  }

  /** The front of the queue is offered one last time and removed. */
  function FlushFront(b: Book, sent: bool): Book
    requires b.queue != []
  {
    Settle(b.(published := b.published + [Handed(b.queue[0].arrival, b.queue[0].fault.event, sent)]), 0,
           if sent then Delivered else LostInFlush)
  }

  function FlushPass(b: Book, sends: nat -> bool, i: nat): Book
    decreases |b.queue|
  {
    if b.queue == [] then b else FlushPass(FlushFront(b, sends(i)), sends, i + 1)
  }

  /**
   What can happen to the queue, with the publisher's answers: a message that is sent once and not
   kept, whether it was accepted or not; a fault that was refused; a pass; the flush.
   */
  datatype QueueOp =
    | SentOnce(event: DiagnosticEvent, sent: bool)
    | SendFailed(event: DiagnosticEvent, error: SinkError, now: Instant)
    | Retry(now: Instant, sends: nat -> bool)
    | Flush(sends: nat -> bool)

  function QueueStep(config: RetryConfig, b: Book, op: QueueOp): Book {
    match op
    case SentOnce(event, sent) => FirstSend(b, event, sent)
    case SendFailed(event, error, now) =>
      var refused := FirstSend(b, event, false);
      if IsTransient(error) then CacheStep(config, refused, event, b.arrivals, now) else refused
    case Retry(now, sends) => RetryPass(config, b, now, sends, 0, 0)
    case Flush(sends) => FlushPass(b, sends, 0)
  }

  function RunQueue(config: RetryConfig, ops: seq<QueueOp>): Book {
    if ops == [] then EMPTY_BOOK else QueueStep(config, RunQueue(config, ops[..|ops| - 1]), ops[|ops| - 1])
  }

  lemma RunQueueSnoc(config: RetryConfig, ops: seq<QueueOp>, op: QueueOp)
    ensures RunQueue(config, ops + [op]) == QueueStep(config, RunQueue(config, ops), op)
  {
    assert (ops + [op])[..|ops|] == ops;
  }

  // ---------------------------------------------------------------- the queue

  /** What a pass leaves of its next entry, if anything. */
  function Remainder(config: RetryConfig, cached: CachedFault, now: Instant, sent: bool): seq<CachedFault> {
    if cached.nextRetry > now then [cached]
    else if !sent && cached.attempts + 1 < config.maxRetries
    then [CachedFault(cached.event, cached.attempts + 1, now + BackoffDelay(config, cached.attempts + 1))]
    else []
  }

  /** The publisher's calls as anyone can see them: event and answer. */
  function Visible(published: seq<Handed>): seq<(DiagnosticEvent, bool)> {
    seq(|published|, i requires 0 <= i < |published| => (published[i].event, published[i].sent))
  }

  lemma VisibleSnoc(published: seq<Handed>, h: Handed)
    ensures Visible(published + [h]) == Visible(published) + [(h.event, h.sent)]
  {
  }

  /** The entries a pass offers: those whose time has come, with the publisher's answers. */
  function DueCalls(rest: seq<CachedFault>, now: Instant, sends: nat -> bool, i: nat): seq<(DiagnosticEvent, bool)> {
    if rest == [] then []
    else (if rest[0].nextRetry > now then [] else [(rest[0].event, sends(i))]) + DueCalls(rest[1..], now, sends, i + 1)
  }

  function DueCall(cached: CachedFault, now: Instant, sent: bool): seq<(DiagnosticEvent, bool)> {
    if cached.nextRetry > now then [] else [(cached.event, sent)]
  }

  /** The next entry of a pass is dealt with, and the rest stays to be passed over. */
  lemma NextEntry(config: RetryConfig, rest: seq<CachedFault>, now: Instant, sends: nat -> bool, i: nat,
                  kept: seq<CachedFault>, calls: seq<(DiagnosticEvent, bool)>)
    requires rest != []
    ensures kept + RetryLeft(config, rest, now, sends, i)
            == (kept + Remainder(config, rest[0], now, sends(i))) + RetryLeft(config, rest[1..], now, sends, i + 1)
    ensures calls + DueCalls(rest, now, sends, i)
            == (calls + DueCall(rest[0], now, sends(i))) + DueCalls(rest[1..], now, sends, i + 1)
  {
    Regroup(kept, Remainder(config, rest[0], now, sends(i)), RetryLeft(config, rest[1..], now, sends, i + 1));
    Regroup(calls, DueCall(rest[0], now, sends(i)), DueCalls(rest[1..], now, sends, i + 1));
  }

  function RetryLeft(config: RetryConfig, rest: seq<CachedFault>, now: Instant, sends: nat -> bool, i: nat): seq<CachedFault> {
    if rest == [] then []
    else Remainder(config, rest[0], now, sends(i)) + RetryLeft(config, rest[1..], now, sends, i + 1)
  }

  /** The transport's publisher, shared by the worker and its retry queue; it keeps the order of the calls. */
  class Publisher {
    var calls: seq<(DiagnosticEvent, bool)>

    constructor ()
      ensures calls == []
    {
      calls := [];
    }

    /** `accepted` is the transport's answer. */
    method Publish(event: DiagnosticEvent, accepted: bool)
      modifies this
      ensures calls == old(calls) + [(event, accepted)]
    {
      calls := calls + [(event, accepted)];
    }
  }

  class IpcWorkerState {
    const config: RetryConfig
    const publisher: Publisher
    var retryQueue: seq<CachedFault>
    /** Everything done to the queue so far. */
    ghost var ops: seq<QueueOp>

    ghost predicate Valid()
      reads this, publisher
    {
      && retryQueue == EntriesOf(RunQueue(config, ops).queue)
      && publisher.calls == Visible(RunQueue(config, ops).published)
    }

    constructor (config: RetryConfig, publisher: Publisher)
      requires publisher.calls == []
      ensures Valid() && ops == [] && this.config == config && this.publisher == publisher
    {
      this.config := config;
      this.publisher := publisher;
      retryQueue := [];
      ops := [];
    }

    /** Record that a message was published and is not kept. */
    ghost method NoteSentOnce(event: DiagnosticEvent, sent: bool)
      requires retryQueue == EntriesOf(RunQueue(config, ops).queue)
      requires publisher.calls == Visible(RunQueue(config, ops).published) + [(event, sent)]
      modifies this`ops
      ensures Valid() && ops == old(ops) + [SentOnce(event, sent)]
    {
      ghost var book := RunQueue(config, ops);
      RunQueueSnoc(config, ops, SentOnce(event, sent));
      VisibleSnoc(book.published, Handed(book.arrivals, event, sent));
      ops := ops + [SentOnce(event, sent)];
    }

    /** The publisher has just refused the event. Keep it if the error may pass; otherwise it is gone. */
    method HandleSendFailure(event: DiagnosticEvent, error: SinkError, now: Instant)
      requires retryQueue == EntriesOf(RunQueue(config, ops).queue)
      requires publisher.calls == Visible(RunQueue(config, ops).published) + [(event, false)]
      modifies this
      ensures Valid() && ops == old(ops) + [SendFailed(event, error, now)]
    {
      RunQueueSnoc(config, ops, SendFailed(event, error, now));
      ghost var book := RunQueue(config, ops);
      VisibleSnoc(book.published, Handed(book.arrivals, event, false));
      if IsTransient(error) {
        CacheForRetry(event, now, FirstSend(book, event, false), book.arrivals);
      }
      ops := ops + [SendFailed(event, error, now)];
    }

    /** Make room by dropping the oldest entry, then append. */
    method CacheForRetry(event: DiagnosticEvent, now: Instant, ghost book: Book, ghost arrival: nat)
      requires retryQueue == EntriesOf(book.queue)
      modifies this`retryQueue
      ensures retryQueue == EntriesOf(CacheStep(config, book, event, arrival, now).queue)
    {
      if |retryQueue| >= config.cacheCapacity && retryQueue != [] {
        retryQueue := retryQueue[1..];
        assert Settle(book, 0, Evicted).queue == book.queue[1..];
      }
      retryQueue := retryQueue + [CachedFault(event, 0, now)];
    }

    /** One pass over the whole queue: due entries are offered once, in order. */
    method ProcessRetries(now: Instant, sends: nat -> bool)
      requires Valid()
      modifies this, publisher
      ensures Valid() && ops == old(ops) + [Retry(now, sends)]
    {
      ghost var book := RunQueue(config, ops);
      RunQueueSnoc(config, ops, Retry(now, sends));
      PassLeaves(config, book, now, sends, 0, 0, [], retryQueue);
      ghost var left := RetryLeft(config, retryQueue, now, sends, 0);
      assert [] + retryQueue == retryQueue && [] + left == left;
      RetryDue(now, sends);
      ops := ops + [Retry(now, sends)];
    }

    method RetryDue(now: Instant, sends: nat -> bool)
      modifies this`retryQueue, publisher
      ensures retryQueue == RetryLeft(config, old(retryQueue), now, sends, 0)
      ensures publisher.calls == old(publisher.calls) + DueCalls(old(retryQueue), now, sends, 0)
    {
      var stillPending: seq<CachedFault> := [];
      var i := 0;
      assert [] + RetryLeft(config, retryQueue, now, sends, 0) == RetryLeft(config, retryQueue, now, sends, 0);
      while retryQueue != []
        invariant stillPending + RetryLeft(config, retryQueue, now, sends, i)
                  == RetryLeft(config, old(retryQueue), now, sends, 0)
        invariant publisher.calls + DueCalls(retryQueue, now, sends, i)
                  == old(publisher.calls) + DueCalls(old(retryQueue), now, sends, 0)
        decreases |retryQueue|
      {
        var cached := retryQueue[0];
        ghost var due, before, calls := cached, stillPending, publisher.calls;
        NextEntry(config, retryQueue, now, sends, i, before, calls);
        retryQueue := retryQueue[1..];
        if cached.nextRetry > now {
          stillPending := stillPending + [cached];
        } else {
          var attempts := cached.attempts + 1;
          publisher.Publish(cached.event, sends(i));
          if !sends(i) && attempts < config.maxRetries {
            cached := CachedFault(cached.event, attempts, now + BackoffDelay(config, attempts));
            stillPending := stillPending + [cached];
          }
        }
        assert publisher.calls == calls + DueCall(due, now, sends(i));
        assert stillPending == before + Remainder(config, due, now, sends(i));
        i := i + 1;
      }
      assert stillPending + [] == stillPending;
      retryQueue := stillPending;
    }

    /** Before shutdown: offer every entry one last time, whatever its backoff. */
    method FinalFlush(sends: nat -> bool)
      requires Valid()
      modifies this, publisher
      ensures Valid() && ops == old(ops) + [Flush(sends)] && retryQueue == []
    {
      ghost var book := RunQueue(config, ops);
      RunQueueSnoc(config, ops, Flush(sends));
      var i := 0;
      while retryQueue != []
        invariant retryQueue == EntriesOf(book.queue) && publisher.calls == Visible(book.published)
        invariant FlushPass(book, sends, i) == FlushPass(RunQueue(config, old(ops)), sends, 0)
        invariant ops == old(ops)
        decreases |retryQueue|
      {
        var cached := retryQueue[0];
        VisibleSnoc(book.published, Handed(book.queue[0].arrival, cached.event, sends(i)));
        book := FlushFront(book, sends(i));
        retryQueue := retryQueue[1..];
        publisher.Publish(cached.event, sends(i));
        i := i + 1;
      }
      ops := ops + [Flush(sends)];
    }
  }

  lemma RetryEntryQueue(config: RetryConfig, book: Book, kept: seq<CachedFault>, rest: seq<CachedFault>,
                        now: Instant, sent: bool)
    requires kept + rest == EntriesOf(book.queue) && rest != []
    ensures |kept| < |book.queue| && book.queue[|kept|].fault == rest[0]
    ensures var (book', stays) := RetryEntry(config, book, |kept|, now, sent);
            && EntriesOf(book'.queue) == kept + Remainder(config, rest[0], now, sent) + rest[1..]
            && |Remainder(config, rest[0], now, sent)| == if stays then 1 else 0
  {
    assert (kept + rest)[|kept|] == rest[0];
    var (book', _) := RetryEntry(config, book, |kept|, now, sent);
    var left := kept + Remainder(config, rest[0], now, sent) + rest[1..];
    assert |book'.queue| == |left|;
    forall i | 0 <= i < |left|
      ensures book'.queue[i].fault == left[i]
    {
      var j := if i < |kept| + |Remainder(config, rest[0], now, sent)| then i else i + |book.queue| - |book'.queue|;
      assert book.queue[j].fault == (kept + rest)[j];
    }
  }

  lemma RetryEntryPublishes(config: RetryConfig, book: Book, rest: seq<CachedFault>, k: nat, now: Instant,
                            sends: nat -> bool, i: nat)
    requires rest != [] && k < |book.queue| && book.queue[k].fault == rest[0]
    ensures Visible(RetryEntry(config, book, k, now, sends(i)).0.published) + DueCalls(rest[1..], now, sends, i + 1)
            == Visible(book.published) + DueCalls(rest, now, sends, i)
  {
    var later := DueCalls(rest[1..], now, sends, i + 1);
    if rest[0].nextRetry > now {
      assert [] + later == later;
    } else {
      VisibleSnoc(book.published, Handed(book.queue[k].arrival, rest[0].event, sends(i)));
      Regroup(Visible(book.published), [(rest[0].event, sends(i))], later);
    }
  }

  /** The queue after a pass: every entry's remainder, in order; and the publisher's calls for it. */
  lemma {:induction false} PassLeaves(config: RetryConfig, book: Book, now: Instant, sends: nat -> bool, k: nat, i: nat,
                                      kept: seq<CachedFault>, rest: seq<CachedFault>)
    requires k == |kept| && kept + rest == EntriesOf(book.queue)
    ensures EntriesOf(RetryPass(config, book, now, sends, k, i).queue) == kept + RetryLeft(config, rest, now, sends, i)
    ensures Visible(RetryPass(config, book, now, sends, k, i).published)
            == Visible(book.published) + DueCalls(rest, now, sends, i)
    decreases |rest|
  {
    if rest != [] {
      RetryEntryQueue(config, book, kept, rest, now, sends(i));
      var (book', stays) := RetryEntry(config, book, k, now, sends(i));
      var left := Remainder(config, rest[0], now, sends(i));
      RetryEntryPublishes(config, book, rest, k, now, sends, i);
      PassLeaves(config, book', now, sends, |kept + left|, i + 1, kept + left, rest[1..]);
      Regroup(kept, left, RetryLeft(config, rest[1..], now, sends, i + 1));
    } else {
      assert kept + rest == kept;
      assert |book.queue| == k;
      assert Visible(book.published) + [] == Visible(book.published);
    }
  }
}
