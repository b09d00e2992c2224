/**
 The three debouncers.

 Each is a class whose methods are proved against a value-level step function; the laws that
 tie those steps to the whole history of events are in `DebounceLaws`.
 */
module Debounce {
  import opened Basics

  /** Monotonic clock readings and durations, in nanoseconds. */
  type Instant = nat
  type Duration = nat

  datatype DebounceMode =
    | WindowMode(minCount: U32, window: Duration)
    | HoldMode(duration: Duration)
    | CooldownMode(cooldown: Duration)

  /** Everything a debouncer remembers: the counted events, or the one instant it compares with. */
  datatype Debouncer = Debouncer(mode: DebounceMode, occurrences: seq<Instant>, mark: Option<Instant>)

  function Fresh(mode: DebounceMode): Debouncer {
    Debouncer(mode, [], None)
  }

  function DropExpired(times: seq<Instant>, now: Instant, window: Duration): seq<Instant> {
    if times != [] && SaturatingSub(now, times[0]) > window then DropExpired(times[1..], now, window)
    else times
  }

  function KeepLast(times: seq<Instant>, count: nat): seq<Instant> {
    if |times| > count then times[|times| - count..] else times
  }

  /** One event: whether it is reported, and the debouncer afterwards. */
  function EventStep(d: Debouncer, now: Instant): (bool, Debouncer) {
    match d.mode
    case WindowMode(minCount, window) =>
      var kept := KeepLast(DropExpired(d.occurrences, now, window) + [now], minCount);
      (|kept| >= minCount, d.(occurrences := kept))
    case HoldMode(duration) =>
      if d.mark.None? then (false, d.(mark := Some(now)))
      else (SaturatingSub(now, d.mark.value) >= duration, d)
    case CooldownMode(cooldown) =>
      if d.mark.Some? && SaturatingSub(now, d.mark.value) < cooldown then (false, d)
      else (true, d.(mark := Some(now)))
  }

  /** The cooldown debouncer re-anchors at the reset; the other two forget everything. */
  function ResetStep(d: Debouncer, now: Instant): Debouncer {
    match d.mode
    case WindowMode(_, _) => d.(occurrences := [])
    case HoldMode(_) => d.(mark := None)
    case CooldownMode(_) => d.(mark := Some(now))
  }

  class CountWithinWindow {
    const minCount: U32
    const window: Duration
    var occurrences: seq<Instant>

    ghost function State(): Debouncer
      reads this
    {
      Debouncer(WindowMode(minCount, window), occurrences, None)
    }

    constructor (minCount: U32, window: Duration)
      ensures State() == Fresh(WindowMode(minCount, window))
    {
      this.minCount := minCount;
      this.window := window;
      occurrences := [];
    }

    method OnEvent(now: Instant) returns (report: bool)
      modifies this
      ensures (report, State()) == EventStep(old(State()), now)
    {
      while occurrences != [] && SaturatingSub(now, occurrences[0]) > window
        invariant DropExpired(occurrences, now, window) == DropExpired(old(occurrences), now, window)
        decreases |occurrences|
      {
        occurrences := occurrences[1..];
      }
      occurrences := occurrences + [now];
      ghost var all := occurrences;
      while |occurrences| > minCount
        invariant KeepLast(occurrences, minCount) == KeepLast(all, minCount)
        decreases |occurrences|
      {
        occurrences := occurrences[1..];
      }
      report := |occurrences| >= minCount;
    }

    method Reset(now: Instant)
      modifies this
      ensures State() == ResetStep(old(State()), now)
    {
      occurrences := [];
    }
  }

  class HoldTime {
    const duration: Duration
    var startTime: Option<Instant>

    ghost function State(): Debouncer
      reads this
    {
      Debouncer(HoldMode(duration), [], startTime)
    }

    constructor (duration: Duration)
      ensures State() == Fresh(HoldMode(duration))
    {
      this.duration := duration;
      startTime := None;
    }

    method OnEvent(now: Instant) returns (report: bool)
      modifies this
      ensures (report, State()) == EventStep(old(State()), now)
    {
      match startTime
      case None =>
        startTime := Some(now);
        report := false;
      case Some(start) =>
        report := SaturatingSub(now, start) >= duration;
    }

    method Reset(now: Instant)
      modifies this
      ensures State() == ResetStep(old(State()), now)
    {
      startTime := None;
    }
  }

  class EdgeWithCooldown {
    const cooldown: Duration
    var lastReport: Option<Instant>

    ghost function State(): Debouncer
      reads this
    {
      Debouncer(CooldownMode(cooldown), [], lastReport)
    }

    constructor (cooldown: Duration)
      ensures State() == Fresh(CooldownMode(cooldown))
    {
      this.cooldown := cooldown;
      lastReport := None;
    }

    method OnEvent(now: Instant) returns (report: bool)
      modifies this
      ensures (report, State()) == EventStep(old(State()), now)
    {
      if lastReport.Some? && SaturatingSub(now, lastReport.value) < cooldown {
        report := false;
      } else {
        lastReport := Some(now);
        report := true;
      }
    }

    method Reset(now: Instant)
      modifies this
      ensures State() == ResetStep(old(State()), now)
    {
      lastReport := Some(now);
    }
  }
}
