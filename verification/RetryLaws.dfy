/** What the retry queue guarantees over every run, whatever the publisher answers and the clock shows. */
module RetryLaws {
  import opened Basics
  import opened Debounce
  import opened DiagnosticEvents
  import opened RetryQueue

  // ---------------------------------------------------------------- conservation and order

  predicate InOrder(queue: seq<Tracked>) {
    forall i, j :: 0 <= i < j < |queue| ==> queue[i].serial < queue[j].serial
  }

  predicate Queued(queue: seq<Tracked>, n: nat) {
    exists i :: 0 <= i < |queue| && queue[i].serial == n
  }

  /** What each entry of the queue is, and that it has not left. */
  predicate HoldsItsEvents(b: Book) {
    forall i :: 0 <= i < |b.queue| ==>
      b.queue[i].serial < |b.cached| && b.queue[i].serial !in b.fates
      && b.queue[i].fault.event == b.cached[b.queue[i].serial]
  }

  /** Every cached event is still queued or has exactly one fate, and the queue is in order of caching. */
  ghost predicate Conserved(b: Book) {
    && InOrder(b.queue)
    && HoldsItsEvents(b)
    && (forall n :: n in b.fates ==> n < |b.cached|)
    && (forall n: nat :: n < |b.cached| ==> n in b.fates || Queued(b.queue, n))
  }

  lemma SettleKeepsQueued(b: Book, k: nat, n: nat)
    requires k < |b.queue| && Queued(b.queue, n) && n != b.queue[k].serial
    ensures Queued(b.queue[..k] + b.queue[k + 1..], n)
  {
    var i :| 0 <= i < |b.queue| && b.queue[i].serial == n;
    var rest := b.queue[..k] + b.queue[k + 1..];
    assert rest[if i < k then i else i - 1].serial == n;
  }

  lemma SettleConserves(b: Book, k: nat, fate: Fate)
    requires Conserved(b) && k < |b.queue|
    ensures Conserved(Settle(b, k, fate))
  {
    var b' := Settle(b, k, fate);
    var n := b.queue[k].serial;
    forall i | 0 <= i < |b'.queue|
      ensures b'.queue[i].serial < |b.cached| && b'.queue[i].serial !in b'.fates
      ensures b'.queue[i].fault.event == b.cached[b'.queue[i].serial]
    {
      assert b'.queue[i] == b.queue[if i < k then i else i + 1];
    }
    forall m: nat | m < |b.cached| && m !in b'.fates
      ensures Queued(b'.queue, m)
    {
      SettleKeepsQueued(b, k, m);
    }
  }

  lemma PushConserves(b: Book, event: DiagnosticEvent, arrival: nat, now: Instant)
    requires Conserved(b)
    ensures Conserved(Push(b, event, arrival, now))
  {
    var b' := Push(b, event, arrival, now);
    forall m: nat | m < |b'.cached| && m !in b'.fates
      ensures Queued(b'.queue, m)
    {
      if m < |b.cached| {
        var i :| 0 <= i < |b.queue| && b.queue[i].serial == m;
        assert b'.queue[i].serial == m;
      } else {
        assert b'.queue[|b.queue|].serial == m;
      }
    }
  }

  lemma PostponeConserves(config: RetryConfig, b: Book, k: nat, now: Instant, attempts: U32)
    requires Conserved(b) && k < |b.queue|
    ensures Conserved(Postpone(config, b, k, now, attempts))
  {
    var b' := Postpone(config, b, k, now, attempts);
    assert forall i :: 0 <= i < |b.queue| ==> b'.queue[i].serial == b.queue[i].serial;
    forall m: nat | m < |b.cached| && m !in b'.fates
      ensures Queued(b'.queue, m)
    {
      var i :| 0 <= i < |b.queue| && b.queue[i].serial == m;
      assert b'.queue[i].serial == m;
    }
  }

  lemma OfferedConserves(b: Book, k: nat, offer: Offer)
    requires Conserved(b) && k < |b.queue|
    ensures Conserved(Offered(b, k, offer))
  {
    var b' := Offered(b, k, offer);
    assert b'.queue == b.queue && b'.fates == b.fates && b'.cached == b.cached;
  }

  // ---------------------------------------------------------------- the offers of one event

  predicate AllRefused(offers: seq<Offer>) {
    forall i :: 0 <= i < |offers| ==> !offers[i].sent
  }

  /** Each offer waits for the backoff of the one before it; the delay grows with their number. */
  predicate Spaced(config: RetryConfig, offers: seq<Offer>) {
    |offers| <= 1
    || (var n := |offers| - 1;
        Spaced(config, offers[..n]) && offers[n].at >= offers[n - 1].at + BackoffDelay(config, n))
  }

  function OfferLimit(config: RetryConfig): nat {
    if config.maxRetries > 1 then config.maxRetries else 1
  }

  /** Fewer offers than the limit, all of them refused. */
  predicate NotExhausted(config: RetryConfig, offers: seq<Offer>) {
    AllRefused(offers) && |offers| < OfferLimit(config)
  }

  predicate SentLast(offers: seq<Offer>) {
    offers != [] && offers[|offers| - 1].sent && AllRefused(offers[..|offers| - 1])
  }

  predicate Waits(config: RetryConfig, offers: seq<Offer>, f: CachedFault) {
    && f.attempts == |offers| && Spaced(config, offers) && NotExhausted(config, offers)
    && (offers != [] ==> f.nextRetry == offers[|offers| - 1].at + BackoffDelay(config, |offers|))
  }

  /** What the way an event left says about the offers made for it. */
  predicate LeftAs(config: RetryConfig, offers: seq<Offer>, fate: Fate) {
    && Spaced(config, offers) && |offers| <= OfferLimit(config)
    && match fate
       case DroppedAtLimit => |offers| == OfferLimit(config) && AllRefused(offers)
       case Delivered => NotExhausted(config, offers) || SentLast(offers)
       case Evicted => NotExhausted(config, offers)
       case LostInFlush => NotExhausted(config, offers)
  }

  predicate EntriesWait(config: RetryConfig, b: Book) {
    forall i :: 0 <= i < |b.queue| ==> Waits(config, OffersOf(b, b.queue[i].serial), b.queue[i].fault)
  }

  predicate FatesFit(config: RetryConfig, b: Book) {
    forall n :: n in b.fates ==> LeftAs(config, OffersOf(b, n), b.fates[n])
  }

  predicate OnlyCachedAreOffered(b: Book) {
    forall n :: n in b.offers ==> n < |b.cached|
  }

  ghost predicate Lawful(config: RetryConfig, b: Book) {
    && Conserved(b) && EntriesWait(config, b) && FatesFit(config, b) && OnlyCachedAreOffered(b)
    && |b.queue| <= Max(1, config.cacheCapacity)
  }

  lemma SettleLawful(config: RetryConfig, b: Book, k: nat, fate: Fate)
    requires Lawful(config, b) && k < |b.queue|
    requires LeftAs(config, OffersOf(b, b.queue[k].serial), fate)
    ensures Lawful(config, Settle(b, k, fate))
  {
    var b' := Settle(b, k, fate);
    SettleConserves(b, k, fate);
    forall i | 0 <= i < |b'.queue|
      ensures Waits(config, OffersOf(b', b'.queue[i].serial), b'.queue[i].fault)
    {
      assert b'.queue[i] == b.queue[if i < k then i else i + 1];
      assert OffersOf(b', b'.queue[i].serial) == OffersOf(b, b'.queue[i].serial);
    }
    forall n | n in b'.fates
      ensures LeftAs(config, OffersOf(b', n), b'.fates[n])
    {
      assert OffersOf(b', n) == OffersOf(b, n);
    }
  }

  lemma WaitingMayLeave(config: RetryConfig, offers: seq<Offer>, f: CachedFault, fate: Fate)
    requires Waits(config, offers, f) && !fate.DroppedAtLimit?
    ensures LeftAs(config, offers, fate)
  {
  }

  lemma PushLawful(config: RetryConfig, b: Book, event: DiagnosticEvent, arrival: nat, now: Instant)
    requires Lawful(config, b) && |b.queue| < Max(1, config.cacheCapacity)
    ensures Lawful(config, Push(b, event, arrival, now))
  {
    var b' := Push(b, event, arrival, now);
    PushConserves(b, event, arrival, now);
    forall i | 0 <= i < |b'.queue|
      ensures Waits(config, OffersOf(b', b'.queue[i].serial), b'.queue[i].fault)
    {
      if i < |b.queue| {
        assert b'.queue[i] == b.queue[i];
      }
    }
  }

  lemma CacheLawful(config: RetryConfig, b: Book, event: DiagnosticEvent, arrival: nat, now: Instant)
    requires Lawful(config, b)
    ensures Lawful(config, CacheStep(config, b, event, arrival, now))
  {
    if |b.queue| >= config.cacheCapacity && b.queue != [] {
      WaitingMayLeave(config, OffersOf(b, b.queue[0].serial), b.queue[0].fault, Evicted);
      SettleLawful(config, b, 0, Evicted);
      PushLawful(config, Settle(b, 0, Evicted), event, arrival, now);
    } else {
      PushLawful(config, b, event, arrival, now);
    }
  }

  /** One more offer, after the backoff, keeps the spacing. */
  lemma OfferSpaced(config: RetryConfig, offers: seq<Offer>, f: CachedFault, offer: Offer)
    requires Waits(config, offers, f) && f.nextRetry <= offer.at
    ensures Spaced(config, offers + [offer]) && |offers + [offer]| <= OfferLimit(config)
    ensures (offers + [offer])[..|offers|] == offers
    ensures !offer.sent ==> AllRefused(offers + [offer])
  {
    assert (offers + [offer])[..|offers|] == offers;
  }

  lemma OfferedOffers(b: Book, k: nat, offer: Offer, n: nat)
    requires k < |b.queue|
    ensures OffersOf(Offered(b, k, offer), n) ==
            if n == b.queue[k].serial then OffersOf(b, n) + [offer] else OffersOf(b, n)
  {
  }

  lemma OfferedThenSettledWait(config: RetryConfig, b: Book, k: nat, offer: Offer, fate: Fate)
    requires InOrder(b.queue) && EntriesWait(config, b) && k < |b.queue|
    ensures EntriesWait(config, Settle(Offered(b, k, offer), k, fate))
  {
    var b' := Settle(Offered(b, k, offer), k, fate);
    forall i | 0 <= i < |b'.queue|
      ensures Waits(config, OffersOf(b', b'.queue[i].serial), b'.queue[i].fault)
    {
      var j := if i < k then i else i + 1;
      assert b'.queue[i] == b.queue[j];
      OfferedOffers(b, k, offer, b.queue[j].serial);
    }
  }

  lemma OfferedThenSettledFit(config: RetryConfig, b: Book, k: nat, offer: Offer, fate: Fate)
    requires FatesFit(config, b) && k < |b.queue| && b.queue[k].serial !in b.fates
    requires LeftAs(config, OffersOf(b, b.queue[k].serial) + [offer], fate)
    ensures FatesFit(config, Settle(Offered(b, k, offer), k, fate))
  {
    var b' := Settle(Offered(b, k, offer), k, fate);
    forall n | n in b'.fates
      ensures LeftAs(config, OffersOf(b', n), b'.fates[n])
    {
      OfferedOffers(b, k, offer, n);
    }
  }

  /** Offering entry `k` and then removing it. */
  lemma OfferAndSettleLawful(config: RetryConfig, b: Book, k: nat, offer: Offer, fate: Fate)
    requires Lawful(config, b) && k < |b.queue|
    requires LeftAs(config, OffersOf(b, b.queue[k].serial) + [offer], fate)
    ensures Lawful(config, Settle(Offered(b, k, offer), k, fate))
  {
    OfferedConserves(b, k, offer);
    SettleConserves(Offered(b, k, offer), k, fate);
    OfferedThenSettledWait(config, b, k, offer, fate);
    OfferedThenSettledFit(config, b, k, offer, fate);
  }

  /** An offer for a queued event says nothing about those that left. */
  lemma OfferedFatesFit(config: RetryConfig, b: Book, k: nat, offer: Offer)
    requires k < |b.queue| && b.queue[k].serial !in b.fates && FatesFit(config, b)
    ensures FatesFit(config, Offered(b, k, offer))
  {
    forall n | n in b.fates
      ensures LeftAs(config, OffersOf(Offered(b, k, offer), n), b.fates[n])
    {
      OfferedOffers(b, k, offer, n);
    }
  }

  /** A refused entry waits again, one offer further. */
  lemma RefusedWaits(config: RetryConfig, offers: seq<Offer>, f: CachedFault, now: Instant)
    requires Waits(config, offers, f) && f.nextRetry <= now && f.attempts + 1 < config.maxRetries
    ensures Waits(config, offers + [Offer(now, false)],
                  CachedFault(f.event, f.attempts + 1, now + BackoffDelay(config, f.attempts + 1)))
  {
    OfferSpaced(config, offers, f, Offer(now, false));
  }

  lemma PostponedEntriesWait(config: RetryConfig, b: Book, k: nat, now: Instant)
    requires InOrder(b.queue) && EntriesWait(config, b) && k < |b.queue|
    requires b.queue[k].fault.nextRetry <= now && b.queue[k].fault.attempts + 1 < config.maxRetries
    ensures EntriesWait(config, Postpone(config, Offered(b, k, Offer(now, false)), k, now, b.queue[k].fault.attempts + 1))
  {
    var offer, f := Offer(now, false), b.queue[k].fault;
    var b' := Postpone(config, Offered(b, k, offer), k, now, f.attempts + 1);
    RefusedWaits(config, OffersOf(b, b.queue[k].serial), f, now);
    forall i | 0 <= i < |b'.queue|
      ensures Waits(config, OffersOf(b', b'.queue[i].serial), b'.queue[i].fault)
    {
      OfferedOffers(b, k, offer, b.queue[i].serial);
      if i != k {
        assert b'.queue[i] == b.queue[i] && b.queue[i].serial != b.queue[k].serial;
      }
    }
  }

  lemma OfferAndPostponeLawful(config: RetryConfig, b: Book, k: nat, now: Instant)
    requires Lawful(config, b) && k < |b.queue|
    requires b.queue[k].fault.nextRetry <= now && b.queue[k].fault.attempts + 1 < config.maxRetries
    ensures Lawful(config, Postpone(config, Offered(b, k, Offer(now, false)), k, now, b.queue[k].fault.attempts + 1))
  {
    var offer, attempts := Offer(now, false), b.queue[k].fault.attempts + 1;
    var offered := Offered(b, k, offer);
    OfferedConserves(b, k, offer);
    PostponeConserves(config, offered, k, now, attempts);
    PostponedEntriesWait(config, b, k, now);
    OfferedFatesFit(config, b, k, offer);
    PostponedFatesFit(config, offered, k, now, attempts);
  }

  lemma PostponedFatesFit(config: RetryConfig, b: Book, k: nat, now: Instant, attempts: U32)
    requires k < |b.queue| && FatesFit(config, b)
    ensures FatesFit(config, Postpone(config, b, k, now, attempts))
  {
    var b' := Postpone(config, b, k, now, attempts);
    forall n | n in b'.fates
      ensures LeftAs(config, OffersOf(b', n), b'.fates[n])
    {
      assert OffersOf(b', n) == OffersOf(b, n);
    }
  }

  predicate IsDue(b: Book, k: nat, now: Instant)
    requires k < |b.queue|
  {
    b.queue[k].fault.nextRetry <= now
  }

  lemma DeliveredLawful(config: RetryConfig, b: Book, k: nat, now: Instant)
    requires Lawful(config, b) && k < |b.queue| && IsDue(b, k, now)
    ensures Lawful(config, Settle(Offered(b, k, Offer(now, true)), k, Delivered))
  {
    OfferSpaced(config, OffersOf(b, b.queue[k].serial), b.queue[k].fault, Offer(now, true));
    OfferAndSettleLawful(config, b, k, Offer(now, true), Delivered);
  }

  lemma DroppedLawful(config: RetryConfig, b: Book, k: nat, now: Instant)
    requires Lawful(config, b) && k < |b.queue| && IsDue(b, k, now)
    requires b.queue[k].fault.attempts + 1 >= config.maxRetries
    ensures Lawful(config, Settle(Offered(b, k, Offer(now, false)), k, DroppedAtLimit))
  {
    OfferSpaced(config, OffersOf(b, b.queue[k].serial), b.queue[k].fault, Offer(now, false));
    OfferAndSettleLawful(config, b, k, Offer(now, false), DroppedAtLimit);
  }

  /** The four things a pass can do with an entry. */
  lemma RetryEntryCases(config: RetryConfig, b: Book, k: nat, now: Instant, sent: bool)
    requires k < |b.queue|
    ensures var offered := Offered(b, k, Offer(now, sent)); var attempts := b.queue[k].fault.attempts + 1;
            RetryEntry(config, b, k, now, sent).0 ==
            if !IsDue(b, k, now) then b
            else if sent then Settle(offered, k, Delivered)
            else if attempts < config.maxRetries then Postpone(config, offered, k, now, attempts)
            else Settle(offered, k, DroppedAtLimit)
  {
  }

  lemma LawfulCases(config: RetryConfig, b: Book, k: nat, now: Instant, sent: bool, b': Book)
    requires Lawful(config, b) && k < |b.queue|
    requires var offered := Offered(b, k, Offer(now, sent)); var attempts := b.queue[k].fault.attempts + 1;
             b' == if !IsDue(b, k, now) then b
                   else if sent then Settle(offered, k, Delivered)
                   else if attempts < config.maxRetries then Postpone(config, offered, k, now, attempts)
                   else Settle(offered, k, DroppedAtLimit)
    ensures Lawful(config, b')
  {
    if IsDue(b, k, now) {
      if sent {
        DeliveredLawful(config, b, k, now);
      } else if b.queue[k].fault.attempts + 1 < config.maxRetries {
        OfferAndPostponeLawful(config, b, k, now);
      } else {
        DroppedLawful(config, b, k, now);
      }
    }
  }

  lemma RetryEntryLawful(config: RetryConfig, b: Book, k: nat, now: Instant, sent: bool)
    requires Lawful(config, b) && k < |b.queue|
    ensures Lawful(config, RetryEntry(config, b, k, now, sent).0)
  {
    RetryEntryCases(config, b, k, now, sent);
    LawfulCases(config, b, k, now, sent, RetryEntry(config, b, k, now, sent).0);
  }

  lemma {:induction false} RetryPassLawful(config: RetryConfig, b: Book, now: Instant, sends: nat -> bool, k: nat, i: nat)
    requires Lawful(config, b) && k <= |b.queue|
    ensures Lawful(config, RetryPass(config, b, now, sends, k, i))
    decreases |b.queue| - k
  {
    if k < |b.queue| {
      var (b', stays) := RetryEntry(config, b, k, now, sends(i));
      RetryEntryLawful(config, b, k, now, sends(i));
      RetryPassLawful(config, b', now, sends, if stays then k + 1 else k, i + 1);
    }
  }

  /** The publisher's calls and the count of messages play no part in these laws. */
  lemma PublishedIsFree(config: RetryConfig, b: Book, published: seq<Handed>, arrivals: nat)
    requires Lawful(config, b)
    ensures Lawful(config, b.(published := published, arrivals := arrivals))
    ensures forall n :: OffersOf(b.(published := published, arrivals := arrivals), n) == OffersOf(b, n)
  {
    var b' := b.(published := published, arrivals := arrivals);
    assert forall n: nat :: Queued(b'.queue, n) == Queued(b.queue, n);
    assert forall n :: OffersOf(b', n) == OffersOf(b, n);
  }

  lemma {:induction false} FlushPassLawful(config: RetryConfig, b: Book, sends: nat -> bool, i: nat)
    requires Lawful(config, b)
    ensures Lawful(config, FlushPass(b, sends, i)) && FlushPass(b, sends, i).queue == []
    decreases |b.queue|
  {
    if b.queue != [] {
      var fate := if sends(i) then Delivered else LostInFlush;
      var offered := b.(published := b.published + [Handed(b.queue[0].arrival, b.queue[0].fault.event, sends(i))]);
      PublishedIsFree(config, b, offered.published, b.arrivals);
      WaitingMayLeave(config, OffersOf(b, b.queue[0].serial), b.queue[0].fault, fate);
      SettleLawful(config, offered, 0, fate);
      FlushPassLawful(config, FlushFront(b, sends(i)), sends, i + 1);
    }
  }

  lemma FirstSendLawful(config: RetryConfig, b: Book, event: DiagnosticEvent, sent: bool)
    requires Lawful(config, b)
    ensures Lawful(config, FirstSend(b, event, sent))
  {
    var b' := FirstSend(b, event, sent);
    PublishedIsFree(config, b, b'.published, b'.arrivals);
  }

  lemma StepLawful(config: RetryConfig, b: Book, op: QueueOp)
    requires Lawful(config, b)
    ensures Lawful(config, QueueStep(config, b, op))
  {
    match op
    case SentOnce(event, sent) => FirstSendLawful(config, b, event, sent);
    case SendFailed(event, error, now) =>
      FirstSendLawful(config, b, event, false);
      if IsTransient(error) {
        CacheLawful(config, FirstSend(b, event, false), event, b.arrivals, now);
      }
    case Retry(now, sends) => RetryPassLawful(config, b, now, sends, 0, 0);
    case Flush(sends) => FlushPassLawful(config, b, sends, 0);
  }

  lemma {:induction false} RunIsLawful(config: RetryConfig, ops: seq<QueueOp>)
    ensures Lawful(config, RunQueue(config, ops))
  {
    if ops != [] {
      RunIsLawful(config, ops[..|ops| - 1]);
      StepLawful(config, RunQueue(config, ops[..|ops| - 1]), ops[|ops| - 1]);
    }
  }

  // ---------------------------------------------------------------- the theorems

  /** The events whose sending failed for a reason that may pass, in order. */
  function TransientFailures(ops: seq<QueueOp>): seq<DiagnosticEvent> {
    if ops == [] then []
    else
      var op := ops[|ops| - 1];
      TransientFailures(ops[..|ops| - 1])
      + if op.SendFailed? && IsTransient(op.error) then [op.event] else []
  }

  lemma {:induction false} PassKeepsCached(config: RetryConfig, b: Book, now: Instant, sends: nat -> bool, k: nat, i: nat)
    requires k <= |b.queue|
    ensures RetryPass(config, b, now, sends, k, i).cached == b.cached
    decreases |b.queue| - k
  {
    if k < |b.queue| {
      var (b', stays) := RetryEntry(config, b, k, now, sends(i));
      PassKeepsCached(config, b', now, sends, if stays then k + 1 else k, i + 1);
    }
  }

  lemma {:induction false} FlushKeepsCached(b: Book, sends: nat -> bool, i: nat)
    ensures FlushPass(b, sends, i).cached == b.cached
    decreases |b.queue|
  {
    if b.queue != [] {
      FlushKeepsCached(FlushFront(b, sends(i)), sends, i + 1);
    }
  }

  lemma {:induction false} CachedAreTransientFailures(config: RetryConfig, ops: seq<QueueOp>)
    ensures RunQueue(config, ops).cached == TransientFailures(ops)
  {
    if ops != [] {
      var b := RunQueue(config, ops[..|ops| - 1]);
      CachedAreTransientFailures(config, ops[..|ops| - 1]);
      match ops[|ops| - 1]
      case SentOnce(_, _) =>
      case SendFailed(_, _, _) =>
      case Retry(now, sends) => PassKeepsCached(config, b, now, sends, 0, 0);
      case Flush(sends) => FlushKeepsCached(b, sends, 0);
    }
  }

  /**
   Over every run, each event that failed for a passing reason is accounted for exactly once:
   still queued, or delivered, dropped at the limit, evicted or lost in the flush.
   */
  lemma RetryConservation(config: RetryConfig, ops: seq<QueueOp>, n: nat)
    requires n < |TransientFailures(ops)|
    ensures var b := RunQueue(config, ops);
            (n in b.fates) != (exists i :: 0 <= i < |b.queue| && b.queue[i].serial == n
                                           && b.queue[i].fault.event == TransientFailures(ops)[n])
  {
    RunIsLawful(config, ops);
    CachedAreTransientFailures(config, ops);
    var b := RunQueue(config, ops);
    if n !in b.fates {
      assert Queued(b.queue, n);
    }
  }

  /** The queue keeps the order of failure, never exceeds its capacity, and holds one entry even at capacity 0. */
  lemma QueueOrderAndLength(config: RetryConfig, ops: seq<QueueOp>, i: nat, j: nat)
    requires i < j < |RunQueue(config, ops).queue|
    ensures var b := RunQueue(config, ops);
            b.queue[i].serial < b.queue[j].serial && |b.queue| <= Max(1, config.cacheCapacity)
  {
    RunIsLawful(config, ops);
  }

  /** By default at most 512 events wait. */
  lemma DefaultQueueBound(ops: seq<QueueOp>)
    ensures |RunQueue(DEFAULT_CONFIG, ops).queue| <= 512
    ensures |RunQueue(DEFAULT_CONFIG, ops).queue| < 512 ==>
              forall event, arrival, now :: CacheStep(DEFAULT_CONFIG, RunQueue(DEFAULT_CONFIG, ops), event, arrival, now).fates
                                            == RunQueue(DEFAULT_CONFIG, ops).fates
  {
    RunIsLawful(DEFAULT_CONFIG, ops);
  }

  /** An event that needs room pushes out the oldest entry, and only when the queue is full. */
  lemma EvictionTakesOldest(config: RetryConfig, ops: seq<QueueOp>, op: QueueOp)
    requires op.SendFailed? && IsTransient(op.error)
    ensures var b, b' := RunQueue(config, ops), RunQueue(config, ops + [op]);
            && b'.queue != [] && b'.queue[|b'.queue| - 1] == Tracked(|b.cached|, b.arrivals, CachedFault(op.event, 0, op.now))
            && if b.queue == [] || |b.queue| < config.cacheCapacity
               then b'.fates == b.fates && b'.queue[..|b'.queue| - 1] == b.queue
               else b'.fates == b.fates[b.queue[0].serial := Evicted] && b'.queue[..|b'.queue| - 1] == b.queue[1..]
                    && forall i :: 0 < i < |b.queue| ==> b.queue[0].serial < b.queue[i].serial
  {
    RunQueueSnoc(config, ops, op);
    RunIsLawful(config, ops);
    var b := RunQueue(config, ops);
    if b.queue != [] {
      assert Settle(b, 0, Evicted).queue == b.queue[1..];
    }
  }

  /** After a flush nothing is left. */
  lemma FlushEmpties(config: RetryConfig, ops: seq<QueueOp>, sends: nat -> bool)
    ensures var b := RunQueue(config, ops + [Flush(sends)]);
            b.queue == [] && forall n: nat :: n < |b.cached| ==> n in b.fates
  {
    RunQueueSnoc(config, ops, Flush(sends));
    RunIsLawful(config, ops);
    RunIsLawful(config, ops + [Flush(sends)]);
    FlushPassLawful(config, RunQueue(config, ops), sends, 0);
  }

  /**
   Over every run: the retries of one event are spaced by the backoff and never exceed the limit;
   an event is dropped for the limit exactly with that many refusals, and a queued one has fewer.
   */
  lemma RetryTiming(config: RetryConfig, ops: seq<QueueOp>, n: nat)
    ensures var b := RunQueue(config, ops);
            && Spaced(config, OffersOf(b, n)) && |OffersOf(b, n)| <= OfferLimit(config)
            && (n in b.fates ==> LeftAs(config, OffersOf(b, n), b.fates[n]))
            && (n in b.fates ==>
                  (b.fates[n].DroppedAtLimit? <==> |OffersOf(b, n)| == OfferLimit(config) && AllRefused(OffersOf(b, n))))
  {
    RunIsLawful(config, ops);
    var b := RunQueue(config, ops);
    if n < |b.cached| && n !in b.fates {
      var i :| 0 <= i < |b.queue| && b.queue[i].serial == n;
      assert Waits(config, OffersOf(b, n), b.queue[i].fault);
    }
  }

  /** A queued entry has never been offered, or fewer times than the maximum. */
  lemma QueuedAttempts(config: RetryConfig, ops: seq<QueueOp>, i: nat)
    requires i < |RunQueue(config, ops).queue|
    ensures var f := RunQueue(config, ops).queue[i].fault; f.attempts == 0 || f.attempts < config.maxRetries
  {
    RunIsLawful(config, ops);
    var b := RunQueue(config, ops);
    assert Waits(config, OffersOf(b, b.queue[i].serial), b.queue[i].fault);
  }

  // ---------------------------------------------------------------- how long retrying takes

  lemma {:induction false} PowerOfTwoGrows(a: nat, b: nat)
    requires a <= b
    ensures 1 <= PowerOfTwo(a) <= PowerOfTwo(b)
  {
    if a < b {
      PowerOfTwoGrows(a, b - 1);
    } else if a > 0 {
      PowerOfTwoGrows(a - 1, b - 1);
    }
  }

  lemma TimesGrows(d: nat, a: nat, b: nat)
    requires a <= b
    ensures d * a <= d * b
  {
  }

  /** The delay starts at the interval and doubles with each of the first ten attempts, up to its cap. */
  lemma BackoffDoubles(config: RetryConfig, attempts: nat)
    ensures BackoffDelay(config, 0) == Min(Min(config.retryInterval, DURATION_MAX), config.maxRetryInterval)
    ensures BackoffDelay(config, attempts + 1)
            == if attempts >= 10 then BackoffDelay(config, attempts)
               else Min(Min(2 * BackoffDelay(config, attempts), DURATION_MAX), config.maxRetryInterval)
  {
    DelayBelow1024(config, 0);
    DelayBelow1024(config, attempts);
    DelayBelow1024(config, attempts + 1);
    var m := PowerOfTwo(Min(attempts, 10));
    CappedDouble(config.retryInterval, m, DURATION_MAX, config.maxRetryInterval);
    assert attempts < 10 ==> PowerOfTwo(attempts + 1) == 2 * m;
    assert config.retryInterval * 1 == config.retryInterval;
  }

  /** The multiplier never reaches the 32-bit limit. */
  lemma DelayBelow1024(config: RetryConfig, attempts: nat)
    ensures BackoffDelay(config, attempts)
            == Min(Min(config.retryInterval * PowerOfTwo(Min(attempts, 10)), DURATION_MAX), config.maxRetryInterval)
  {
    PowerBelow1024(Min(attempts, 10));
  }

  lemma CappedDouble(interval: nat, m: nat, limit: nat, cap: nat)
    ensures Min(Min(interval * (2 * m), limit), cap) == Min(Min(2 * Min(Min(interval * m, limit), cap), limit), cap)
  {
    assert interval * (2 * m) == 2 * (interval * m);
  }

  lemma PowerBelow1024(n: nat)
    requires n <= 10
    ensures 1 <= PowerOfTwo(n) <= 1024
  {
    assert PowerOfTwo(10) == 1024;
    PowerOfTwoGrows(n, 10);
  }

  /** The delay never shrinks, and never exceeds its cap. */
  lemma BackoffGrows(config: RetryConfig, a: nat, b: nat)
    requires a <= b
    ensures BackoffDelay(config, a) <= BackoffDelay(config, b) <= config.maxRetryInterval
  {
    PowerOfTwoGrows(Min(a, 10), Min(b, 10));
    TimesGrows(config.retryInterval, Min(PowerOfTwo(Min(a, 10)), U32_MAX), Min(PowerOfTwo(Min(b, 10)), U32_MAX));
  }

  /** The sum of the delays between the first offer and offer `n + 1`. */
  function TotalBackoff(config: RetryConfig, n: nat): Duration {
    if n == 0 then 0 else TotalBackoff(config, n - 1) + BackoffDelay(config, n)
  }

  lemma {:induction false} OffersSpan(config: RetryConfig, offers: seq<Offer>)
    requires Spaced(config, offers) && offers != []
    ensures offers[|offers| - 1].at - offers[0].at >= TotalBackoff(config, |offers| - 1)
  {
    if |offers| > 1 {
      OffersSpan(config, offers[..|offers| - 1]);
    }
  }

  /** An event dropped at the limit was retried over at least the sum of all delays. */
  lemma DropTakesAllDelays(config: RetryConfig, ops: seq<QueueOp>, n: nat)
    requires var b := RunQueue(config, ops); n in b.fates && b.fates[n].DroppedAtLimit?
    ensures var offers := OffersOf(RunQueue(config, ops), n);
            offers != [] && offers[|offers| - 1].at - offers[0].at >= TotalBackoff(config, OfferLimit(config) - 1)
  {
    RetryTiming(config, ops, n);
    OffersSpan(config, OffersOf(RunQueue(config, ops), n));
  }

  lemma DefaultDelay(n: nat)
    ensures BackoffDelay(DEFAULT_CONFIG, n) ==
            if n == 0 then 100 * MILLISECOND else if n == 1 then 200 * MILLISECOND
            else if n == 2 then 400 * MILLISECOND else if n == 3 then 800 * MILLISECOND
            else if n == 4 then 1_600 * MILLISECOND else if n == 5 then 3_200 * MILLISECOND
            else 5_000 * MILLISECOND
  {
    assert PowerOfTwo(0) == 1 && PowerOfTwo(1) == 2 && PowerOfTwo(2) == 4 && PowerOfTwo(3) == 8;
    assert PowerOfTwo(4) == 16 && PowerOfTwo(5) == 32 && PowerOfTwo(6) == 64;
    if n >= 6 {
      PowerOfTwoGrows(6, Min(n, 10));
    }
  }

  lemma {:induction false} DefaultTotal(n: nat)
    requires n <= 9
    ensures TotalBackoff(DEFAULT_CONFIG, n) ==
            (if n == 0 then 0 else if n == 1 then 200 else if n == 2 then 600 else if n == 3 then 1_400
             else if n == 4 then 3_000 else if n == 5 then 6_200 else 6_200 + 5_000 * (n - 5)) * MILLISECOND
  {
    if n > 0 {
      DefaultTotal(n - 1);
      DefaultDelay(n);
    }
  }

  /** With the default configuration, a dropped event was retried for at least 26.2 seconds. */
  lemma DefaultDropSpan(ops: seq<QueueOp>, n: nat)
    requires var b := RunQueue(DEFAULT_CONFIG, ops); n in b.fates && b.fates[n].DroppedAtLimit?
    ensures var offers := OffersOf(RunQueue(DEFAULT_CONFIG, ops), n);
            |offers| == 10 && offers[9].at - offers[0].at >= 26_200 * MILLISECOND
  {
    DropTakesAllDelays(DEFAULT_CONFIG, ops, n);
    RetryTiming(DEFAULT_CONFIG, ops, n);
    DefaultTotal(OfferLimit(DEFAULT_CONFIG) - 1);
  }
}
