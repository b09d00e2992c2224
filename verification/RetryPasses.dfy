/**
 What one pass over the retry queue does, entry by entry.

 Nothing here is stated through the pass itself: only through the queue, the offers, the fates and the
 publisher's calls before and after it.
 */
module RetryPasses {
  import opened Debounce
  import opened RetryQueue
  import opened RetryLaws
  import opened DeliveryOrder

  /**
   Entry `j`, given the publisher's answer: an entry whose time has not come is left alone. One whose
   time has come is offered once, now; it leaves the queue if it is accepted or has used up its
   attempts, and otherwise waits for its backoff.
   */
  predicate EntryPassed(config: RetryConfig, b: Book, after: Book, j: nat, now: Instant, sent: bool)
    requires j < |b.queue|
  {
    var e := b.queue[j];
    if e.fault.nextRetry > now then
      OffersOf(after, e.serial) == OffersOf(b, e.serial) && e in after.queue
    else
      && OffersOf(after, e.serial) == OffersOf(b, e.serial) + [Offer(now, sent)]
      && (exists p :: |b.published| <= p < |after.published| && after.published[p] == Handed(e.arrival, e.fault.event, sent))
      && (if sent then e.serial in after.fates && after.fates[e.serial] == Delivered
          else if e.fault.attempts + 1 < config.maxRetries then
            Tracked(e.serial, e.arrival,
                    CachedFault(e.fault.event, e.fault.attempts + 1, now + BackoffDelay(config, e.fault.attempts + 1))) in after.queue
          else e.serial in after.fates && after.fates[e.serial] == DroppedAtLimit)
  }

  /** Whatever is queued after the pass waits for a later time, or was offered in the pass. */
  predicate NoneDueLeft(b: Book, after: Book, now: Instant, k: nat) {
    forall j :: k <= j < |after.queue| ==>
      after.queue[j].fault.nextRetry > now
      || exists m :: k <= m < |b.queue| && b.queue[m].serial == after.queue[j].serial && b.queue[m].fault.nextRetry <= now
  }

  predicate FirstKept(b: Book, after: Book, k: nat)
    requires k <= |b.queue|
  {
    && k <= |after.queue|
    && forall j :: 0 <= j < k ==>
         after.queue[j] == b.queue[j] && OffersOf(after, b.queue[j].serial) == OffersOf(b, b.queue[j].serial)
  }

  /** Events that are not queued are not touched. */
  ghost predicate OthersAlone(b: Book, after: Book) {
    && b.cached == after.cached && b.arrivals == after.arrivals && b.published <= after.published
    && forall n: nat :: !Queued(b.queue, n) ==>
         OffersOf(after, n) == OffersOf(b, n) && (n in b.fates ==> n in after.fates && after.fates[n] == b.fates[n])
  }

  /** Entry `j` gets the answer of the offer made when the pass has come to it. */
  predicate EntryPassedAt(config: RetryConfig, b: Book, after: Book, j: nat, now: Instant, sends: nat -> bool, k: nat, i: nat)
    requires k <= j < |b.queue|
  {
    EntryPassed(config, b, after, j, now, sends(i + (j - k)))
  }

  /** The pass from entry `k` on, the publisher's answers counted from the `i`-th. */
  ghost predicate PassedFrom(config: RetryConfig, b: Book, after: Book, now: Instant, sends: nat -> bool, k: nat, i: nat)
    requires k <= |b.queue|
  {
    && FirstKept(b, after, k)
    && (forall j :: k <= j < |b.queue| ==> EntryPassedAt(config, b, after, j, now, sends, k, i))
    && NoneDueLeft(b, after, now, k)
    && OthersAlone(b, after)
  }

  lemma EntryLift(config: RetryConfig, b: Book, b1: Book, after: Book, j: nat, j1: nat, now: Instant, sent: bool)
    requires j < |b.queue| && j1 < |b1.queue| && b.queue[j] == b1.queue[j1]
    requires OffersOf(b1, b.queue[j].serial) == OffersOf(b, b.queue[j].serial)
    requires |b.published| <= |b1.published| && EntryPassed(config, b1, after, j1, now, sent)
    ensures EntryPassed(config, b, after, j, now, sent)
  {
  }

  lemma WaitingStays(config: RetryConfig, b: Book, after: Book, now: Instant, sends: nat -> bool, k: nat, i: nat)
    requires k < |b.queue| && b.queue[k].fault.nextRetry > now
    requires PassedFrom(config, b, after, now, sends, k + 1, i + 1)
    ensures PassedFrom(config, b, after, now, sends, k, i)
  {
    forall j | k <= j < |b.queue|
      ensures EntryPassedAt(config, b, after, j, now, sends, k, i)
    {
      if j > k {
        assert EntryPassedAt(config, b, after, j, now, sends, k + 1, i + 1);
        assert i + (j - k) == i + 1 + (j - (k + 1));
      } else {
        assert after.queue[k] == b.queue[k];
      }
    }
  }

  /** What making an offer for entry `k` changes besides the queue and the fates. */
  ghost predicate OfferMade(b: Book, b1: Book, k: nat, offer: Offer)
    requires k < |b.queue|
  {
    && b1.cached == b.cached && b1.arrivals == b.arrivals
    && b1.published == b.published + [Handed(b.queue[k].arrival, b.queue[k].fault.event, offer.sent)]
    && OffersOf(b1, b.queue[k].serial) == OffersOf(b, b.queue[k].serial) + [offer]
    && forall n: nat :: n != b.queue[k].serial ==> OffersOf(b1, n) == OffersOf(b, n)
  }

  lemma FirstStillKept(b: Book, b1: Book, after: Book, k: nat, offer: Offer)
    requires InOrder(b.queue) && k < |b.queue| && OfferMade(b, b1, k, offer)
    requires k <= |b1.queue| && b1.queue[..k] == b.queue[..k] && FirstKept(b1, after, k)
    ensures FirstKept(b, after, k)
  {
    forall j | 0 <= j < k
      ensures after.queue[j] == b.queue[j] && OffersOf(after, b.queue[j].serial) == OffersOf(b, b.queue[j].serial)
    {
      assert b1.queue[..k][j] == b.queue[..k][j];
    }
  }

  lemma OthersStillAlone(b: Book, b1: Book, after: Book, k: nat, offer: Offer)
    requires k < |b.queue| && OfferMade(b, b1, k, offer) && OthersAlone(b1, after)
    requires forall n: nat :: Queued(b1.queue, n) ==> Queued(b.queue, n)
    requires forall n: nat :: n != b.queue[k].serial && n in b.fates ==> n in b1.fates && b1.fates[n] == b.fates[n]
    ensures OthersAlone(b, after)
  {
    forall n: nat | !Queued(b.queue, n)
      ensures OffersOf(after, n) == OffersOf(b, n) && (n in b.fates ==> n in after.fates && after.fates[n] == b.fates[n])
    {
      assert n != b.queue[k].serial;
    }
  }

  // ---------------------------------------------------------------- an entry that is postponed

  /** Entry `k` stays in its place, changed; the others are as they were. */
  predicate Replaced(b: Book, b1: Book, k: nat, e: Tracked)
    requires k < |b.queue|
  {
    b1.fates == b.fates && b1.queue == b.queue[k := e] && e.serial == b.queue[k].serial
  }

  lemma ReplacedKeepsSerials(b: Book, b1: Book, k: nat, e: Tracked, n: nat)
    requires k < |b.queue| && Replaced(b, b1, k, e)
    ensures Queued(b1.queue, n) ==> Queued(b.queue, n)
    ensures InOrder(b.queue) ==> InOrder(b1.queue)
  {
    assert forall j :: 0 <= j < |b.queue| ==> b1.queue[j].serial == b.queue[j].serial;
  }

  lemma PostponedEntries(config: RetryConfig, b: Book, b1: Book, after: Book, now: Instant, sends: nat -> bool, k: nat, i: nat,
                         e: Tracked, j: nat)
    requires InOrder(b.queue) && k < j < |b.queue| && Replaced(b, b1, k, e) && OfferMade(b, b1, k, Offer(now, false))
    requires EntryPassedAt(config, b1, after, j, now, sends, k + 1, i + 1)
    ensures EntryPassedAt(config, b, after, j, now, sends, k, i)
  {
    assert i + (j - k) == i + 1 + (j - (k + 1));
    EntryLift(config, b, b1, after, j, j, now, sends(i + (j - k)));
  }

  lemma NoneDueReplaced(b: Book, b1: Book, after: Book, now: Instant, k: nat, e: Tracked)
    requires k < |b.queue| && b.queue[k].fault.nextRetry <= now && Replaced(b, b1, k, e)
    requires FirstKept(b1, after, k + 1) && NoneDueLeft(b1, after, now, k + 1)
    ensures NoneDueLeft(b, after, now, k)
  {
    forall j | k <= j < |after.queue| && after.queue[j].fault.nextRetry <= now
      ensures exists m :: k <= m < |b.queue| && b.queue[m].serial == after.queue[j].serial && b.queue[m].fault.nextRetry <= now
    {
      if j == k {
        assert after.queue[k] == b1.queue[k];
      } else {
        var m :| k + 1 <= m < |b1.queue| && b1.queue[m].serial == after.queue[j].serial && b1.queue[m].fault.nextRetry <= now;
        assert b1.queue[m] == b.queue[m];
      }
    }
  }

  lemma PostponedStays(config: RetryConfig, b: Book, b1: Book, after: Book, now: Instant, sends: nat -> bool, k: nat, i: nat)
    requires InOrder(b.queue) && k < |b.queue| && b.queue[k].fault.nextRetry <= now && !sends(i)
    requires b.queue[k].fault.attempts + 1 < config.maxRetries && OfferMade(b, b1, k, Offer(now, false))
    requires var f := b.queue[k].fault;
             Replaced(b, b1, k, b.queue[k].(fault := CachedFault(f.event, f.attempts + 1, now + BackoffDelay(config, f.attempts + 1))))
    requires PassedFrom(config, b1, after, now, sends, k + 1, i + 1)
    ensures PassedFrom(config, b, after, now, sends, k, i)
  {
    var e := b1.queue[k];
    FirstStillKept(b, b1, after, k, Offer(now, false));
    NoneDueReplaced(b, b1, after, now, k, e);
    forall n: nat
      ensures Queued(b1.queue, n) ==> Queued(b.queue, n)
    {
      ReplacedKeepsSerials(b, b1, k, e, n);
    }
    OthersStillAlone(b, b1, after, k, Offer(now, false));
    forall j | k <= j < |b.queue|
      ensures EntryPassedAt(config, b, after, j, now, sends, k, i)
    {
      if j > k {
        PostponedEntries(config, b, b1, after, now, sends, k, i, e, j);
      } else {
        assert after.queue[k] == b1.queue[k];
        assert after.published[|b.published|] == b1.published[|b.published|];
      }
    }
  }

  // ---------------------------------------------------------------- an entry that leaves

  predicate Removed(b: Book, b1: Book, k: nat, fate: Fate)
    requires k < |b.queue|
  {
    b1.fates == b.fates[b.queue[k].serial := fate] && b1.queue == b.queue[..k] + b.queue[k + 1..]
  }

  lemma RemovedIsGone(b: Book, b1: Book, k: nat, fate: Fate)
    requires InOrder(b.queue) && k < |b.queue| && Removed(b, b1, k, fate)
    ensures !Queued(b1.queue, b.queue[k].serial) && InOrder(b1.queue)
    ensures forall n: nat :: Queued(b1.queue, n) ==> Queued(b.queue, n)
  {
    assert forall j :: 0 <= j < |b1.queue| ==> b1.queue[j] == b.queue[if j < k then j else j + 1];
  }

  lemma RemovedEntries(config: RetryConfig, b: Book, b1: Book, after: Book, now: Instant, sends: nat -> bool, k: nat, i: nat,
                       fate: Fate, j: nat)
    requires InOrder(b.queue) && k < j < |b.queue| && Removed(b, b1, k, fate) && OfferMade(b, b1, k, Offer(now, sends(i)))
    requires EntryPassedAt(config, b1, after, j - 1, now, sends, k, i + 1)
    ensures EntryPassedAt(config, b, after, j, now, sends, k, i)
  {
    assert i + (j - k) == i + 1 + ((j - 1) - k);
    EntryLift(config, b, b1, after, j, j - 1, now, sends(i + (j - k)));
  }

  lemma NoneDueRemoved(b: Book, b1: Book, after: Book, now: Instant, k: nat, fate: Fate)
    requires k < |b.queue| && Removed(b, b1, k, fate) && NoneDueLeft(b1, after, now, k)
    ensures NoneDueLeft(b, after, now, k)
  {
    forall j | k <= j < |after.queue| && after.queue[j].fault.nextRetry <= now
      ensures exists m :: k <= m < |b.queue| && b.queue[m].serial == after.queue[j].serial && b.queue[m].fault.nextRetry <= now
    {
      var m :| k <= m < |b1.queue| && b1.queue[m].serial == after.queue[j].serial && b1.queue[m].fault.nextRetry <= now;
      assert b1.queue[m] == b.queue[m + 1];
    }
  }

  lemma SettledLeaves(config: RetryConfig, b: Book, b1: Book, after: Book, now: Instant, sends: nat -> bool, k: nat, i: nat,
                      fate: Fate)
    requires InOrder(b.queue) && k < |b.queue| && b.queue[k].fault.nextRetry <= now
    requires if sends(i) then fate == Delivered else b.queue[k].fault.attempts + 1 >= config.maxRetries && fate == DroppedAtLimit
    requires OfferMade(b, b1, k, Offer(now, sends(i))) && Removed(b, b1, k, fate)
    requires PassedFrom(config, b1, after, now, sends, k, i + 1)
    ensures PassedFrom(config, b, after, now, sends, k, i)
  {
    RemovedIsGone(b, b1, k, fate);
    FirstStillKept(b, b1, after, k, Offer(now, sends(i)));
    NoneDueRemoved(b, b1, after, now, k, fate);
    OthersStillAlone(b, b1, after, k, Offer(now, sends(i)));
    forall j | k <= j < |b.queue|
      ensures EntryPassedAt(config, b, after, j, now, sends, k, i)
    {
      if j > k {
        RemovedEntries(config, b, b1, after, now, sends, k, i, fate, j);
      } else {
        assert after.published[|b.published|] == b1.published[|b.published|];
      }
    }
  }

  // ---------------------------------------------------------------- the pass

  lemma PostponeReplaces(config: RetryConfig, b: Book, k: nat, now: Instant)
    requires k < |b.queue| && b.queue[k].fault.attempts + 1 < config.maxRetries
    ensures var f := b.queue[k].fault;
            var b1 := Postpone(config, Offered(b, k, Offer(now, false)), k, now, f.attempts + 1);
            && OfferMade(b, b1, k, Offer(now, false))
            && Replaced(b, b1, k,
                        b.queue[k].(fault := CachedFault(f.event, f.attempts + 1, now + BackoffDelay(config, f.attempts + 1))))
  {
  }

  lemma SettleRemoves(b: Book, k: nat, offer: Offer, fate: Fate)
    requires k < |b.queue|
    ensures OfferMade(b, Settle(Offered(b, k, offer), k, fate), k, offer)
    ensures Removed(b, Settle(Offered(b, k, offer), k, fate), k, fate)
  {
  }

  lemma {:induction false} PassGoesOver(config: RetryConfig, b: Book, now: Instant, sends: nat -> bool, k: nat, i: nat)
    requires InOrder(b.queue) && k <= |b.queue|
    ensures PassedFrom(config, b, RetryPass(config, b, now, sends, k, i), now, sends, k, i)
    decreases |b.queue| - k
  {
    if k < |b.queue| {
      var after := RetryPass(config, b, now, sends, k, i);
      var offered, attempts := Offered(b, k, Offer(now, sends(i))), b.queue[k].fault.attempts + 1;
      RetryEntryCases(config, b, k, now, sends(i));
      if b.queue[k].fault.nextRetry > now {
        PassGoesOver(config, b, now, sends, k + 1, i + 1);
        WaitingStays(config, b, after, now, sends, k, i);
      } else if !sends(i) && attempts < config.maxRetries {
        var b1 := Postpone(config, offered, k, now, attempts);
        PostponeReplaces(config, b, k, now);
        ReplacedKeepsSerials(b, b1, k, b1.queue[k], 0);
        PassGoesOver(config, b1, now, sends, k + 1, i + 1);
        PostponedStays(config, b, b1, after, now, sends, k, i);
      } else {
        var fate := if sends(i) then Delivered else DroppedAtLimit;
        var b1 := Settle(offered, k, fate);
        SettleRemoves(b, k, Offer(now, sends(i)), fate);
        RemovedIsGone(b, b1, k, fate);
        PassGoesOver(config, b1, now, sends, k, i + 1);
        SettledLeaves(config, b, b1, after, now, sends, k, i, fate);
      }
    }
  }

  /** A whole pass: every queued entry is looked at once, in order. */
  ghost predicate PassedOver(config: RetryConfig, b: Book, after: Book, now: Instant, sends: nat -> bool) {
    && (forall j :: 0 <= j < |b.queue| ==> EntryPassed(config, b, after, j, now, sends(j)))
    && NoneDueLeft(b, after, now, 0)
    && OthersAlone(b, after)
  }

  lemma PassIsOver(config: RetryConfig, b: Book, now: Instant, sends: nat -> bool)
    requires InOrder(b.queue)
    ensures PassedOver(config, b, QueueStep(config, b, Retry(now, sends)), now, sends)
  {
    PassGoesOver(config, b, now, sends, 0, 0);
    var after := RetryPass(config, b, now, sends, 0, 0);
    forall j | 0 <= j < |b.queue|
      ensures EntryPassed(config, b, after, j, now, sends(j))
    {
      assert EntryPassedAt(config, b, after, j, now, sends, 0, 0);
    }
  }

  /** The flush: every queued entry is offered once more, in order, and leaves whatever the answer. */
  predicate FlushedOut(b: Book, after: Book, sends: nat -> bool) {
    && after.queue == [] && |after.published| == |b.published| + |b.queue| && b.published <= after.published
    && forall k :: 0 <= k < |b.queue| ==>
         after.published[|b.published| + k] == Handed(b.queue[k].arrival, b.queue[k].fault.event, sends(k))
  }

  lemma FlushIsOut(config: RetryConfig, b: Book, sends: nat -> bool)
    ensures FlushedOut(b, QueueStep(config, b, Flush(sends)), sends)
  {
    FlushEmptiesQueue(b, sends, 0);
    FlushHands(b, sends, 0);
    var calls := FlushedCalls(b.queue, sends, 0);
    forall k | 0 <= k < |b.queue|
      ensures (b.published + calls)[|b.published| + k] == Handed(b.queue[k].arrival, b.queue[k].fault.event, sends(k))
    {
      assert (b.published + calls)[|b.published| + k] == calls[k];
    }
  }
}
