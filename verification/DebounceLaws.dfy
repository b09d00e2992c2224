/** What the debouncers report, stated on the whole history of events and resets. */
module DebounceLaws {
  import opened Basics
  import opened Debounce

  datatype Input = Event(at: Instant) | Restart(at: Instant)

  /** Clock readings never run backwards. */
  predicate Ordered(h: seq<Input>) {
    |h| <= 1 || (h[|h| - 2].at <= h[|h| - 1].at && Ordered(h[..|h| - 1]))
  }

  lemma OrderedSnoc(h: seq<Input>, x: Input)
    ensures Ordered(h + [x]) <==> Ordered(h) && (h != [] ==> h[|h| - 1].at <= x.at)
  {
    assert (h + [x])[..|h|] == h;
  }

  lemma {:induction false} OrderedPair(h: seq<Input>, i: nat, j: nat)
    requires Ordered(h) && i <= j < |h|
    ensures h[i].at <= h[j].at
  {
    if i < j {
      OrderedPair(h[..|h| - 1], i, if j == |h| - 1 then j - 1 else j);
    }
  }

  function Run(mode: DebounceMode, h: seq<Input>): Debouncer {
    if h == [] then Fresh(mode)
    else
      var d := Run(mode, h[..|h| - 1]);
      match h[|h| - 1]
      case Event(at) => EventStep(d, at).1
      case Restart(at) => ResetStep(d, at)
  }

  // ---------------------------------------------------------------- specification debouncer

  /** The events since the last reset. */
  function SinceRestart(h: seq<Input>): seq<Instant> {
    if h == [] || h[|h| - 1].Restart? then []
    else SinceRestart(h[..|h| - 1]) + [h[|h| - 1].at]
  }

  /** How many events lie within `window` of `now`. */
  function CountRecent(times: seq<Instant>, now: Instant, window: Duration): nat {
    if times == [] then 0
    else CountRecent(times[..|times| - 1], now, window)
         + if SaturatingSub(now, times[|times| - 1]) <= window then 1 else 0
  }

  /**
   Whether an event at `now` is reported after history `h`: enough events in the window,
   held since the first event long enough, or no report or reset within the cooldown.
   */
  predicate Accepts(mode: DebounceMode, h: seq<Input>, now: Instant)
    decreases |h|
  {
    match mode
    case WindowMode(minCount, window) =>
      CountRecent(SinceRestart(h) + [now], now, window) >= minCount
    case HoldMode(duration) =>
      var since := SinceRestart(h);
      since != [] && SaturatingSub(now, since[0]) >= duration
    case CooldownMode(cooldown) =>
      forall i :: 0 <= i < |h| && (h[i].Restart? || Accepts(mode, h[..i], h[i].at)) ==>
        SaturatingSub(now, h[i].at) >= cooldown
  }

  // ---------------------------------------------------------------- sliding window

  predicate Sorted(times: seq<Instant>) {
    |times| <= 1 || (times[|times| - 2] <= times[|times| - 1] && Sorted(times[..|times| - 1]))
  }

  lemma SortedSnoc(times: seq<Instant>, t: Instant)
    ensures Sorted(times + [t]) <==> Sorted(times) && (times != [] ==> times[|times| - 1] <= t)
  {
    assert (times + [t])[..|times|] == times;
  }

  lemma {:induction false} SortedPair(times: seq<Instant>, i: nat, j: nat)
    requires Sorted(times) && i <= j < |times|
    ensures times[i] <= times[j]
  {
    if i < j {
      SortedPair(times[..|times| - 1], i, if j == |times| - 1 then j - 1 else j);
    }
  }

  predicate AllExpired(times: seq<Instant>, now: Instant, window: Duration) {
    forall t :: t in times ==> SaturatingSub(now, t) > window
  }

  predicate AllRecent(times: seq<Instant>, now: Instant, window: Duration) {
    forall t :: t in times ==> SaturatingSub(now, t) <= window
  }

  lemma {:induction false} CountConcat(a: seq<Instant>, b: seq<Instant>, now: Instant, window: Duration)
    ensures CountRecent(a + b, now, window) == CountRecent(a, now, window) + CountRecent(b, now, window)
  {
    if b == [] {
      assert a + b == a;
    } else {
      CountConcat(a, b[..|b| - 1], now, window);
      assert (a + b)[..|a + b| - 1] == a + b[..|b| - 1];
    }
  }

  lemma {:induction false} CountBounds(times: seq<Instant>, now: Instant, window: Duration)
    ensures CountRecent(times, now, window) <= |times|
    ensures AllExpired(times, now, window) ==> CountRecent(times, now, window) == 0
    ensures AllRecent(times, now, window) ==> CountRecent(times, now, window) == |times|
  {
    if times != [] {
      CountBounds(times[..|times| - 1], now, window);
    }
  }

  /** Popping expired events from the front of a sorted deque leaves exactly the recent ones. */
  lemma {:induction false} DropExpiredSplits(times: seq<Instant>, now: Instant, window: Duration) returns (gone: seq<Instant>)
    requires Sorted(times)
    ensures times == gone + DropExpired(times, now, window)
    ensures AllExpired(gone, now, window) && AllRecent(DropExpired(times, now, window), now, window)
  {
    if times != [] && SaturatingSub(now, times[0]) > window {
      SortedTail(times);
      gone := DropExpiredSplits(times[1..], now, window);
      gone := [times[0]] + gone;
    } else {
      gone := [];
      forall t | t in times
        ensures SaturatingSub(now, t) <= window
      {
        var i :| 0 <= i < |times| && times[i] == t;
        SortedPair(times, 0, i);
      }
    }
  }

  lemma {:induction false} SortedTail(times: seq<Instant>)
    requires Sorted(times) && times != []
    ensures Sorted(times[1..])
  {
    if |times| > 2 {
      SortedTail(times[..|times| - 1]);
      assert times[1..][..|times| - 2] == times[..|times| - 1][1..];
    }
  }

  lemma {:induction false} SortedParts(a: seq<Instant>, b: seq<Instant>)
    requires Sorted(a + b)
    ensures Sorted(b)
  {
    if a == [] {
      assert a + b == b;
    } else {
      SortedTail(a + b);
      assert (a + b)[1..] == a[1..] + b;
      SortedParts(a[1..], b);
    }
  }

  /**
   The capped deque is the end of the history; what it lost is out of the window, unless the
   deque is full and does not need it. `seen` is the time of the last event.
   */
  predicate WindowInv(lost: seq<Instant>, deque: seq<Instant>, minCount: nat, window: Duration, seen: Instant) {
    |deque| <= minCount && (|deque| == minCount || AllExpired(lost, seen, window))
  }

  /** What the deque no longer holds after the event, if the deque is not full then. */
  lemma LostStaysLost(lost: seq<Instant>, gone: seq<Instant>, rest: seq<Instant>, minCount: nat,
                      window: Duration, seen: Instant, now: Instant)
    requires WindowInv(lost, gone + rest, minCount, window, seen) && seen <= now
    requires Sorted(lost + (gone + rest)) && AllExpired(gone, now, window) && |rest| < minCount
    ensures AllExpired(lost + gone, now, window)
  {
    if |gone + rest| == minCount {
      forall t | t in lost
        ensures SaturatingSub(now, t) > window
      {
        var i :| 0 <= i < |lost| && lost[i] == t;
        SortedPair(lost + (gone + rest), i, |lost|);
        assert (lost + (gone + rest))[i] == t && (lost + (gone + rest))[|lost|] == gone[0];
        assert gone[0] in gone;
      }
    }
  }

  lemma CountOfKept(lost: seq<Instant>, kept: seq<Instant>, minCount: nat, window: Duration, now: Instant)
    requires |kept| <= minCount && AllRecent(kept, now, window)
    requires |kept| == minCount || AllExpired(lost, now, window)
    ensures |kept| >= minCount <==> CountRecent(lost + kept, now, window) >= minCount
  {
    CountConcat(lost, kept, now, window);
    CountBounds(lost, now, window);
    CountBounds(kept, now, window);
  }

  lemma KeepLastSplits(times: seq<Instant>, count: nat) returns (gone: seq<Instant>)
    ensures times == gone + KeepLast(times, count)
    ensures |KeepLast(times, count)| == Min(|times|, count)
  {
    gone := times[..|times| - Min(|times|, count)];
  }

  lemma AllRecentParts(a: seq<Instant>, b: seq<Instant>, now: Instant, window: Duration)
    ensures AllRecent(a + b, now, window) <==> AllRecent(a, now, window) && AllRecent(b, now, window)
  {
    assert forall t :: t in a + b <==> t in a || t in b;
  }

  /** Pushing the new event onto the recent ones and capping. */
  lemma WindowPush(lost: seq<Instant>, rest: seq<Instant>, minCount: nat, window: Duration, now: Instant)
    returns (lost': seq<Instant>)
    requires AllRecent(rest, now, window) && |rest| <= minCount
    requires |rest| < minCount ==> AllExpired(lost, now, window)
    ensures var kept := KeepLast(rest + [now], minCount);
            lost' + kept == lost + (rest + [now])
            && WindowInv(lost', kept, minCount, window, now)
            && (|kept| >= minCount <==> CountRecent(lost + (rest + [now]), now, window) >= minCount)
  {
    var pushed := rest + [now];
    var capped := KeepLastSplits(pushed, minCount);
    var kept := KeepLast(pushed, minCount);
    lost' := lost + capped;
    assert lost' + kept == lost + (capped + kept);
    AllRecentParts(rest, [now], now, window);
    AllRecentParts(capped, kept, now, window);
    if |kept| < minCount {
      assert capped == [] && lost' == lost;
    }
    CountOfKept(lost', kept, minCount, window, now);
  }

  /** What stays in the deque is recent; if that does not fill it, everything else has expired. */
  lemma WindowSplits(lost: seq<Instant>, deque: seq<Instant>, minCount: nat, window: Duration, seen: Instant, now: Instant)
    returns (gone: seq<Instant>)
    requires WindowInv(lost, deque, minCount, window, seen) && seen <= now && Sorted(lost + deque)
    ensures var rest := DropExpired(deque, now, window);
            deque == gone + rest && |rest| <= minCount && AllRecent(rest, now, window)
            && (|rest| < minCount ==> AllExpired(lost + gone, now, window))
  {
    SortedParts(lost, deque);
    gone := DropExpiredSplits(deque, now, window);
    var rest := DropExpired(deque, now, window);
    if |rest| < minCount {
      LostStaysLost(lost, gone, rest, minCount, window, seen, now);
    }
  }

  lemma RegroupLast(a: seq<Instant>, b: seq<Instant>, c: seq<Instant>, t: Instant)
    ensures a + b + (c + [t]) == a + (b + c) + [t]
  {
  }

  /** One event keeps the window invariant and is reported exactly when the window is full. */
  lemma WindowStep(lost: seq<Instant>, deque: seq<Instant>, minCount: nat, window: Duration, seen: Instant, now: Instant)
    returns (lost': seq<Instant>)
    requires WindowInv(lost, deque, minCount, window, seen) && seen <= now && Sorted(lost + deque)
    ensures var kept := KeepLast(DropExpired(deque, now, window) + [now], minCount);
            lost' + kept == lost + deque + [now]
            && WindowInv(lost', kept, minCount, window, now)
            && (|kept| >= minCount <==> CountRecent(lost + deque + [now], now, window) >= minCount)
  {
    var gone := WindowSplits(lost, deque, minCount, window, seen, now);
    var rest := DropExpired(deque, now, window);
    lost' := WindowPush(lost + gone, rest, minCount, window, now);
    RegroupLast(lost, gone, rest, now);
  }

  // ---------------------------------------------------------------- refinement, all three modes

  function LastTime(h: seq<Input>): Instant {
    if h == [] then 0 else h[|h| - 1].at
  }

  predicate EndsSorted(times: seq<Instant>, last: Instant) {
    Sorted(times) && (times != [] ==> times[|times| - 1] == last)
  }

  lemma EndsSortedSnoc(times: seq<Instant>, last: Instant, t: Instant)
    requires EndsSorted(times, last) && last <= t
    ensures EndsSorted(times + [t], t)
  {
    SortedSnoc(times, t);
  }

  lemma {:induction false} SinceRestartIsSorted(h: seq<Input>)
    requires Ordered(h)
    ensures EndsSorted(SinceRestart(h), LastTime(h))
  {
    if h != [] && h[|h| - 1].Event? {
      var front := h[..|h| - 1];
      SinceRestartIsSorted(front);
      EndsSortedSnoc(SinceRestart(front), LastTime(front), h[|h| - 1].at);
    }
  }

  /** The debouncer after `h` holds the end of the events since the restart; `lost` is the rest. */
  predicate WindowHolds(minCount: U32, window: Duration, h: seq<Input>, d: Debouncer, lost: seq<Instant>) {
    && d.mode == WindowMode(minCount, window)
    && SinceRestart(h) == lost + d.occurrences
    && WindowInv(lost, d.occurrences, minCount, window, LastTime(h))
  }

  /** One more event. */
  lemma WindowEvent(minCount: U32, window: Duration, front: seq<Input>, now: Instant, d: Debouncer, lost: seq<Instant>)
    returns (lost': seq<Instant>)
    requires WindowHolds(minCount, window, front, d, lost)
    requires Sorted(SinceRestart(front)) && LastTime(front) <= now
    ensures WindowHolds(minCount, window, front + [Event(now)], EventStep(d, now).1, lost')
  {
    lost' := WindowStep(lost, d.occurrences, minCount, window, LastTime(front), now);
    assert (front + [Event(now)])[..|front|] == front;
  }

  /** The deque after a run is the end of the events since the restart, by the window invariant. */
  lemma {:induction false} WindowOverRun(minCount: U32, window: Duration, h: seq<Input>) returns (lost: seq<Instant>)
    requires Ordered(h)
    ensures WindowHolds(minCount, window, h, Run(WindowMode(minCount, window), h), lost)
  {
    lost := [];
    if h != [] {
      var mode := WindowMode(minCount, window);
      var front, x := h[..|h| - 1], h[|h| - 1];
      var before := WindowOverRun(minCount, window, front);
      if x.Event? {
        SinceRestartIsSorted(front);
        assert h == front + [x];
        lost := WindowEvent(minCount, window, front, x.at, Run(mode, front), before);
      } else {
        ResetForgets(minCount, window, Run(mode, front), h);
      }
    }
  }

  lemma ResetForgets(minCount: U32, window: Duration, d: Debouncer, h: seq<Input>)
    requires d.mode == WindowMode(minCount, window) && h != [] && h[|h| - 1].Restart?
    ensures WindowHolds(minCount, window, h, ResetStep(d, h[|h| - 1].at), [])
  {
  }

  /** The capped deque decides as if every event since the reset were kept; it never exceeds the cap. */
  lemma SlidingWindowRefines(minCount: U32, window: Duration, h: seq<Input>, now: Instant)
    requires Ordered(h + [Event(now)])
    ensures var d := Run(WindowMode(minCount, window), h);
            |d.occurrences| <= minCount
            && (EventStep(d, now).0 <==> CountRecent(SinceRestart(h) + [now], now, window) >= minCount)
  {
    OrderedSnoc(h, Event(now));
    var lost := WindowOverRun(minCount, window, h);
    SinceRestartIsSorted(h);
    var d := Run(WindowMode(minCount, window), h);
    var lost' := WindowStep(lost, d.occurrences, minCount, window, LastTime(h), now);
  }

  lemma {:induction false} HoldOverRun(duration: Duration, h: seq<Input>)
    ensures var mode := HoldMode(duration);
            Run(mode, h).mode == mode
            && Run(mode, h).mark == if SinceRestart(h) == [] then None else Some(SinceRestart(h)[0])
  {
    if h != [] {
      HoldOverRun(duration, h[..|h| - 1]);
    }
  }

  /** An input the cooldown is measured from: a report or a reset. */
  predicate IsAnchor(mode: DebounceMode, h: seq<Input>, i: nat)
    requires i < |h|
  {
    h[i].Restart? || Accepts(mode, h[..i], h[i].at)
  }

  /** The `i`-th input is the last anchor. */
  predicate LastAnchor(mode: DebounceMode, h: seq<Input>, i: nat)
    requires i < |h|
  {
    IsAnchor(mode, h, i) && forall j :: i < j < |h| ==> !IsAnchor(mode, h, j)
  }

  predicate MarksLastAnchor(mode: DebounceMode, h: seq<Input>, mark: Option<Instant>) {
    if mark.None? then forall i :: 0 <= i < |h| ==> !IsAnchor(mode, h, i)
    else exists i :: 0 <= i < |h| && LastAnchor(mode, h, i) && h[i].at == mark.value
  }

  lemma {:induction false} CooldownOverRun(cooldown: Duration, h: seq<Input>)
    requires Ordered(h)
    ensures var mode := CooldownMode(cooldown);
            Run(mode, h).mode == mode && MarksLastAnchor(mode, h, Run(mode, h).mark)
  {
    var mode := CooldownMode(cooldown);
    if h != [] {
      var n := |h| - 1;
      var front, last := h[..n], h[n];
      CooldownOverRun(cooldown, front);
      forall i | 0 <= i < n
        ensures IsAnchor(mode, front, i) == IsAnchor(mode, h, i)
      {
        assert front[..i] == h[..i];
      }
      if last.Event? {
        CooldownDecides(cooldown, front, last.at, Run(mode, front).mark);
      }
      var mark := Run(mode, h).mark;
      if IsAnchor(mode, h, n) {
        assert mark == Some(h[n].at) && LastAnchor(mode, h, n);
      } else if mark.Some? {
        var i :| 0 <= i < n && LastAnchor(mode, front, i) && front[i].at == mark.value;
        assert LastAnchor(mode, h, i);
      }
    }
  }

  /** Comparing with the last anchor alone is as good as comparing with all of them. */
  lemma CooldownDecides(cooldown: Duration, h: seq<Input>, now: Instant, mark: Option<Instant>)
    requires Ordered(h)
    requires MarksLastAnchor(CooldownMode(cooldown), h, mark)
    ensures Accepts(CooldownMode(cooldown), h, now) <==>
            (mark.None? || SaturatingSub(now, mark.value) >= cooldown)
  {
    var mode := CooldownMode(cooldown);
    assert forall i :: 0 <= i < |h| ==>
      (IsAnchor(mode, h, i) <==> (h[i].Restart? || Accepts(mode, h[..i], h[i].at)));
    if mark.Some? {
      var i :| 0 <= i < |h| && LastAnchor(mode, h, i) && h[i].at == mark.value;
      forall j | 0 <= j < |h| && IsAnchor(mode, h, j)
        ensures h[j].at <= h[i].at
      {
        OrderedPair(h, j, i);
      }
    }
  }

  lemma WindowRefines(minCount: U32, window: Duration, h: seq<Input>, now: Instant)
    requires Ordered(h + [Event(now)])
    ensures EventStep(Run(WindowMode(minCount, window), h), now).0 <==> Accepts(WindowMode(minCount, window), h, now)
  {
    SlidingWindowRefines(minCount, window, h, now);
  }

  lemma HoldRefines(duration: Duration, h: seq<Input>, now: Instant)
    ensures EventStep(Run(HoldMode(duration), h), now).0 <==> Accepts(HoldMode(duration), h, now)
  {
    HoldOverRun(duration, h);
  }

  lemma CooldownRefines(cooldown: Duration, h: seq<Input>, now: Instant)
    requires Ordered(h)
    ensures EventStep(Run(CooldownMode(cooldown), h), now).0 <==> Accepts(CooldownMode(cooldown), h, now)
  {
    CooldownOverRun(cooldown, h);
    CooldownDecides(cooldown, h, now, Run(CooldownMode(cooldown), h).mark);
  }

  /** Every debouncer reports exactly what the specification accepts, whatever came before. */
  lemma DebouncerRefines(mode: DebounceMode, h: seq<Input>, now: Instant)
    requires Ordered(h + [Event(now)])
    ensures EventStep(Run(mode, h), now).0 <==> Accepts(mode, h, now)
  {
    OrderedSnoc(h, Event(now));
    match mode
    case WindowMode(minCount, window) => WindowRefines(minCount, window, h, now);
    case HoldMode(duration) => HoldRefines(duration, h, now);
    case CooldownMode(cooldown) => CooldownRefines(cooldown, h, now);
  }

  // ---------------------------------------------------------------- the cooldown of the specification

  lemma SpecifiedSpacing(cooldown: Duration, h: seq<Input>, i: nat, j: nat)
    requires i < j < |h|
    requires var mode := CooldownMode(cooldown);
             IsAnchor(mode, h, i) && h[j].Event? && Accepts(mode, h[..j], h[j].at)
    ensures SaturatingSub(h[j].at, h[i].at) >= cooldown
  {
    assert h[..j][i] == h[i] && h[..j][..i] == h[..i];
  }

  lemma SpecifiedSuppression(cooldown: Duration, h: seq<Input>, j: nat) returns (i: nat)
    requires j < |h| && h[j].Event? && !Accepts(CooldownMode(cooldown), h[..j], h[j].at)
    ensures i < j && IsAnchor(CooldownMode(cooldown), h, i)
    ensures SaturatingSub(h[j].at, h[i].at) < cooldown
  {
    var mode := CooldownMode(cooldown);
    var p := h[..j];
    i :| 0 <= i < |p| && (p[i].Restart? || Accepts(mode, p[..i], p[i].at))
      && SaturatingSub(h[j].at, p[i].at) < cooldown;
    assert p[..i] == h[..i];
  }

  predicate Reported(mode: DebounceMode, h: seq<Input>, i: nat)
    requires i < |h|
  {
    h[i].Event? && Accepts(mode, h[..i], h[i].at)
  }

  /** Reports among the first `n` inputs that fall in `[lo, hi]`. */
  function ReportsBetween(mode: DebounceMode, h: seq<Input>, n: nat, lo: Instant, hi: Instant): nat
    requires n <= |h|
  {
    if n == 0 then 0
    else ReportsBetween(mode, h, n - 1, lo, hi)
         + if Reported(mode, h, n - 1) && lo <= h[n - 1].at <= hi then 1 else 0
  }

  lemma {:induction false} ReportsSpread(cooldown: Duration, h: seq<Input>, n: nat, lo: Instant, hi: Instant)
    returns (first: nat, last: nat)
    requires Ordered(h) && n <= |h|
    requires ReportsBetween(CooldownMode(cooldown), h, n, lo, hi) > 0
    ensures first <= last < n && lo <= h[first].at && h[last].at <= hi
    ensures Reported(CooldownMode(cooldown), h, last)
    ensures h[last].at - h[first].at >= (ReportsBetween(CooldownMode(cooldown), h, n, lo, hi) - 1) * cooldown
  {
    var mode := CooldownMode(cooldown);
    var before := ReportsBetween(mode, h, n - 1, lo, hi);
    if !(Reported(mode, h, n - 1) && lo <= h[n - 1].at <= hi) {
      first, last := ReportsSpread(cooldown, h, n - 1, lo, hi);
    } else if before == 0 {
      first, last := n - 1, n - 1;
    } else {
      var previous;
      first, previous := ReportsSpread(cooldown, h, n - 1, lo, hi);
      last := n - 1;
      SpecifiedSpacing(cooldown, h, previous, last);
      OrderedPair(h, previous, last);
      OrderedPair(h, first, previous);
      NextMultiple(before, cooldown);
    }
  }

  lemma NextMultiple(n: nat, c: nat)
    ensures (n - 1) * c + c == n * c
  {
  }

  lemma SpecifiedRateBound(cooldown: Duration, h: seq<Input>, lo: Instant, length: Duration)
    requires Ordered(h) && cooldown > 0
    ensures ReportsBetween(CooldownMode(cooldown), h, |h|, lo, lo + length) <= length / cooldown + 1
  {
    var count := ReportsBetween(CooldownMode(cooldown), h, |h|, lo, lo + length);
    if count > 0 {
      var first, last := ReportsSpread(cooldown, h, |h|, lo, lo + length);
      QuotientBound(count - 1, cooldown, length);
    }
  }

  lemma QuotientBound(k: nat, c: nat, length: nat)
    requires c > 0 && k * c <= length
    ensures k <= length / c
  {
    var q := length / c;
    assert length == q * c + length % c;
    assert (k - q) * c == k * c - q * c;
    assert k - q >= 1 ==> (k - q) * c >= c;
  }

  // ---------------------------------------------------------------- the cooldown of the debouncer

  /** The debouncer itself, after the inputs before the `i`-th, reports that input. */
  predicate Fires(cooldown: Duration, h: seq<Input>, i: nat)
    requires i < |h|
  {
    h[i].Event? && EventStep(Run(CooldownMode(cooldown), h[..i]), h[i].at).0
  }

  lemma {:induction false} OrderedPrefix(h: seq<Input>, n: nat)
    requires Ordered(h) && n <= |h|
    ensures Ordered(h[..n])
  {
    if n < |h| {
      OrderedPrefix(h[..|h| - 1], n);
      assert h[..|h| - 1][..n] == h[..n];
    } else {
      assert h[..n] == h;
    }
  }

  lemma FiresIsReported(cooldown: Duration, h: seq<Input>, i: nat)
    requires Ordered(h) && i < |h|
    ensures Fires(cooldown, h, i) <==> Reported(CooldownMode(cooldown), h, i)
  {
    OrderedPrefix(h, i);
    CooldownRefines(cooldown, h[..i], h[i].at);
  }

  /** The debouncer reports at least a cooldown after everything it reported and every reset. */
  lemma CooldownSpacing(cooldown: Duration, h: seq<Input>, i: nat, j: nat)
    requires Ordered(h) && i < j < |h| && (h[i].Restart? || Fires(cooldown, h, i)) && Fires(cooldown, h, j)
    ensures h[j].at - h[i].at >= cooldown
  {
    FiresIsReported(cooldown, h, i);
    FiresIsReported(cooldown, h, j);
    OrderedPair(h, i, j);
    SpecifiedSpacing(cooldown, h, i, j);
  }

  /** An event the debouncer suppresses has a report or a reset within the cooldown before it. */
  lemma CooldownSuppression(cooldown: Duration, h: seq<Input>, j: nat) returns (i: nat)
    requires Ordered(h) && j < |h| && h[j].Event? && !Fires(cooldown, h, j)
    ensures i < j && (h[i].Restart? || Fires(cooldown, h, i)) && h[j].at - h[i].at < cooldown
  {
    FiresIsReported(cooldown, h, j);
    i := SpecifiedSuppression(cooldown, h, j);
    FiresIsReported(cooldown, h, i);
    OrderedPair(h, i, j);
  }

  /** How often the debouncer reports in `[lo, hi]` on the first `n` inputs. */
  function FiresBetween(cooldown: Duration, h: seq<Input>, n: nat, lo: Instant, hi: Instant): nat
    requires n <= |h|
  {
    if n == 0 then 0
    else FiresBetween(cooldown, h, n - 1, lo, hi)
         + if Fires(cooldown, h, n - 1) && lo <= h[n - 1].at <= hi then 1 else 0
  }

  lemma {:induction false} FiresAreReports(cooldown: Duration, h: seq<Input>, n: nat, lo: Instant, hi: Instant)
    requires Ordered(h) && n <= |h|
    ensures FiresBetween(cooldown, h, n, lo, hi) == ReportsBetween(CooldownMode(cooldown), h, n, lo, hi)
  {
    if n > 0 {
      FiresAreReports(cooldown, h, n - 1, lo, hi);
      FiresIsReported(cooldown, h, n - 1);
    }
  }

  /** In any interval of length `length` the debouncer reports at most `length / cooldown + 1` times. */
  lemma CooldownRateBound(cooldown: Duration, h: seq<Input>, lo: Instant, length: Duration)
    requires Ordered(h) && cooldown > 0
    ensures FiresBetween(cooldown, h, |h|, lo, lo + length) <= length / cooldown + 1
  {
    FiresAreReports(cooldown, h, |h|, lo, lo + length);
    SpecifiedRateBound(cooldown, h, lo, length);
  }
}
