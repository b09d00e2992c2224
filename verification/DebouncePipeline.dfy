/**
 A debouncer behind a stage tracker: both the reporter and the manager restart their debouncer
 when a fault comes back, then ask it about the record, and remember the stage of suppressed
 records too.
 */
module DebouncePipeline {
  import opened Basics
  import opened Debounce
  import opened DebounceLaws
  import opened Faults

  /** Which pairs of consecutive stages restart the debouncer. */
  datatype Side = ReporterSide | ManagerSide

  predicate Restarts(side: Side, last: LifecycleStage, new_: LifecycleStage) {
    match side
    case ReporterSide => last.Passed? && (new_.Failed? || new_.PreFailed?)
    case ManagerSide =>
      ((last.Passed? || last.NotTested?) && new_.Failed?) || (last.Passed? && new_.PreFailed?)
  }

  /** What one record shows the pipeline: its stage and the clock at the two places it is read. */
  datatype Stamp = Stamp(stage: LifecycleStage, resetAt: Instant, eventAt: Instant)

  datatype Pipeline = Pipeline(debouncer: Option<Debouncer>, lastStage: Option<LifecycleStage>)

  /** Creates the debouncer on first use; with no mode configured every record passes. */
  function Process(side: Side, mode: Option<DebounceMode>, p: Pipeline, s: Stamp): (bool, Pipeline) {
    var restarted :=
      if p.lastStage.Some? && Restarts(side, p.lastStage.value, s.stage) && p.debouncer.Some?
      then Some(ResetStep(p.debouncer.value, s.resetAt))
      else p.debouncer;
    var ready :=
      if restarted.Some? then restarted
      else if mode.Some? then Some(Fresh(mode.value))
      else None;
    if ready.None? then (true, Pipeline(None, Some(s.stage)))
    else
      var r := EventStep(ready.value, s.eventAt);
      (r.0, Pipeline(Some(r.1), Some(s.stage)))
  }

  // ---------------------------------------------------------------- the history a debouncer sees

  function LastStage(first: Option<LifecycleStage>, stamps: seq<Stamp>): Option<LifecycleStage> {
    if stamps == [] then first else Some(stamps[|stamps| - 1].stage)
  }

  /**
   A restart just before the record, if its stage calls for one: a fault that passed fails again, or,
   at the manager alone, one that was not tested fails.
   */
  function RestartInput(side: Side, last: Option<LifecycleStage>, s: Stamp): seq<Input> {
    if last == Some(Passed) && (s.stage == Failed || s.stage == PreFailed) then [Restart(s.resetAt)]
    else if side == ManagerSide && last == Some(NotTested) && s.stage == Failed then [Restart(s.resetAt)]
    else []
  }

  /** Every record is an event, whether or not it was let through. */
  function Inputs(side: Side, first: Option<LifecycleStage>, stamps: seq<Stamp>): seq<Input> {
    if stamps == [] then []
    else
      var before := stamps[..|stamps| - 1];
      var s := stamps[|stamps| - 1];
      Inputs(side, first, before) + RestartInput(side, LastStage(first, before), s) + [Event(s.eventAt)]
  }

  /** The inputs up to the moment the debouncer is asked about `s`. */
  function InputsBefore(side: Side, first: Option<LifecycleStage>, stamps: seq<Stamp>, s: Stamp): seq<Input> {
    Inputs(side, first, stamps) + RestartInput(side, LastStage(first, stamps), s)
  }

  /** The specification: what passes after a given history of records. */
  predicate LetsThrough(side: Side, mode: Option<DebounceMode>, first: Option<LifecycleStage>, stamps: seq<Stamp>, s: Stamp) {
    mode.None? || Accepts(mode.value, InputsBefore(side, first, stamps, s), s.eventAt)
  }

  /** Clock readings never run backwards, from one record to the next and within a record. */
  predicate ClockOrdered(stamps: seq<Stamp>) {
    stamps == []
    || (ClockOrdered(stamps[..|stamps| - 1])
        && stamps[|stamps| - 1].resetAt <= stamps[|stamps| - 1].eventAt
        && (|stamps| > 1 ==> stamps[|stamps| - 2].eventAt <= stamps[|stamps| - 1].resetAt))
  }

  /** The state reached after the records `stamps`. */
  predicate Reached(side: Side, mode: Option<DebounceMode>, first: Option<LifecycleStage>, stamps: seq<Stamp>, p: Pipeline) {
    && p.lastStage == LastStage(first, stamps)
    && (if mode.None? then p.debouncer.None?
        else if p.debouncer.None? then stamps == [] && first.None?
        else p.debouncer.value == Run(mode.value, Inputs(side, first, stamps)))
  }

  lemma ClockOrderedSnoc(stamps: seq<Stamp>, s: Stamp)
    ensures ClockOrdered(stamps + [s]) <==>
            ClockOrdered(stamps) && s.resetAt <= s.eventAt
            && (stamps != [] ==> stamps[|stamps| - 1].eventAt <= s.resetAt)
  {
    assert (stamps + [s])[..|stamps|] == stamps;
  }

  lemma {:induction false} InputsOrdered(side: Side, first: Option<LifecycleStage>, stamps: seq<Stamp>)
    requires ClockOrdered(stamps)
    ensures Ordered(Inputs(side, first, stamps))
    ensures stamps != [] ==>
              var h := Inputs(side, first, stamps);
              h != [] && h[|h| - 1].at == stamps[|stamps| - 1].eventAt
    ensures stamps == [] ==> Inputs(side, first, stamps) == []
  {
    if stamps != [] {
      var before, s := stamps[..|stamps| - 1], stamps[|stamps| - 1];
      assert stamps == before + [s];
      InputsOrdered(side, first, before);
      InputsBeforeOrdered(side, first, before, s);
    }
  }

  /** Whatever the debouncer is asked last, its clock readings are in order. */
  lemma InputsBeforeOrdered(side: Side, first: Option<LifecycleStage>, stamps: seq<Stamp>, s: Stamp)
    requires ClockOrdered(stamps + [s])
    requires Ordered(Inputs(side, first, stamps))
    requires var h := Inputs(side, first, stamps);
             if stamps == [] then h == [] else h != [] && h[|h| - 1].at == stamps[|stamps| - 1].eventAt
    ensures Ordered(InputsBefore(side, first, stamps, s) + [Event(s.eventAt)])
  {
    var h := Inputs(side, first, stamps);
    ClockOrderedSnoc(stamps, s);
    OrderedSnoc(InputsBefore(side, first, stamps, s), Event(s.eventAt));
    if RestartInput(side, LastStage(first, stamps), s) == [] {
      assert InputsBefore(side, first, stamps, s) == h;
    } else {
      OrderedSnoc(h, Restart(s.resetAt));
    }
  }

  lemma RunSnoc(mode: DebounceMode, h: seq<Input>, x: Input)
    ensures Run(mode, h + [x]) ==
            if x.Event? then EventStep(Run(mode, h), x.at).1 else ResetStep(Run(mode, h), x.at)
  {
    assert (h + [x])[..|h|] == h;
  }

  lemma InputsSnoc(side: Side, first: Option<LifecycleStage>, stamps: seq<Stamp>, s: Stamp)
    ensures Inputs(side, first, stamps + [s]) == InputsBefore(side, first, stamps, s) + [Event(s.eventAt)]
  {
    assert (stamps + [s])[..|stamps|] == stamps;
  }

  /** The debouncer is asked in the state the specification's inputs lead to. */
  lemma RunInputsBefore(side: Side, mode: DebounceMode, first: Option<LifecycleStage>, stamps: seq<Stamp>, s: Stamp)
    ensures var last := LastStage(first, stamps);
            var d := Run(mode, Inputs(side, first, stamps));
            Run(mode, InputsBefore(side, first, stamps, s)) ==
            if last.Some? && Restarts(side, last.value, s.stage) then ResetStep(d, s.resetAt) else d
  {
    RestartsAgree(side, LastStage(first, stamps), s);
    AfterRestart(mode, Inputs(side, first, stamps), RestartInput(side, LastStage(first, stamps), s), s.resetAt);
  }

  /** The code's table of stage pairs is that of the specification. */
  lemma RestartsAgree(side: Side, last: Option<LifecycleStage>, s: Stamp)
    ensures RestartInput(side, last, s)
            == if last.Some? && Restarts(side, last.value, s.stage) then [Restart(s.resetAt)] else []
  {
  }

  lemma AfterRestart(mode: DebounceMode, h: seq<Input>, restart: seq<Input>, at: Instant)
    requires restart == [] || restart == [Restart(at)]
    ensures Run(mode, h + restart) == if restart == [] then Run(mode, h) else ResetStep(Run(mode, h), at)
  {
    if restart == [] {
      assert h + restart == h;
    } else {
      RunSnoc(mode, h, Restart(at));
    }
  }

  /** The decision and the next debouncer, in terms of the debouncer the inputs lead to. */
  lemma ProcessIsEventStep(side: Side, mode: DebounceMode, first: Option<LifecycleStage>,
                           stamps: seq<Stamp>, s: Stamp, p: Pipeline)
    requires Reached(side, Some(mode), first, stamps, p)
    ensures var d := Run(mode, InputsBefore(side, first, stamps, s));
            Process(side, Some(mode), p, s)
            == (EventStep(d, s.eventAt).0, Pipeline(Some(EventStep(d, s.eventAt).1), Some(s.stage)))
  {
    RunInputsBefore(side, mode, first, stamps, s);
    if p.debouncer.None? {
      assert InputsBefore(side, first, stamps, s) == [];
    }
  }

  /** One record: the tracker and the debouncer again stand for the whole history. */
  lemma ProcessReaches(side: Side, mode: Option<DebounceMode>, first: Option<LifecycleStage>,
                       stamps: seq<Stamp>, s: Stamp, p: Pipeline)
    requires Reached(side, mode, first, stamps, p)
    ensures Reached(side, mode, first, stamps + [s], Process(side, mode, p, s).1)
  {
    if mode.Some? {
      ProcessIsEventStep(side, mode.value, first, stamps, s, p);
      InputsSnoc(side, first, stamps, s);
      RunSnoc(mode.value, InputsBefore(side, first, stamps, s), Event(s.eventAt));
    }
  }

  /** One record passes exactly when the specification lets it through after the same history. */
  lemma ProcessRefines(side: Side, mode: Option<DebounceMode>, first: Option<LifecycleStage>,
                       stamps: seq<Stamp>, s: Stamp, p: Pipeline)
    requires Reached(side, mode, first, stamps, p) && ClockOrdered(stamps + [s])
    ensures Process(side, mode, p, s).0 <==> LetsThrough(side, mode, first, stamps, s)
  {
    if mode.Some? {
      ProcessIsEventStep(side, mode.value, first, stamps, s, p);
      InputsRefine(side, mode.value, first, stamps, s);
    }
  }

  lemma InputsRefine(side: Side, mode: DebounceMode, first: Option<LifecycleStage>, stamps: seq<Stamp>, s: Stamp)
    requires ClockOrdered(stamps + [s])
    ensures EventStep(Run(mode, InputsBefore(side, first, stamps, s)), s.eventAt).0
            <==> Accepts(mode, InputsBefore(side, first, stamps, s), s.eventAt)
  {
    ClockOrderedSnoc(stamps, s);
    InputsOrdered(side, first, stamps);
    InputsBeforeOrdered(side, first, stamps, s);
    DebouncerRefines(mode, InputsBefore(side, first, stamps, s), s.eventAt);
  }

  // ---------------------------------------------------------------- which pairs of stages restart

  /**
   A hold-time debouncer that has been held long enough lets a record through, on either side and for
   every pair of stages, exactly if the pair is none of the three that restart it.
   */
  lemma HeldRecordPasses(side: Side, duration: Duration, start: Instant, last: LifecycleStage, s: Stamp)
    requires s.resetAt == s.eventAt && s.eventAt >= start + duration
    ensures var p := Pipeline(Some(Debouncer(HoldMode(duration), [], Some(start))), Some(last));
            Process(side, Some(HoldMode(duration)), p, s).0 <==>
            (&& (last, s.stage) != (Passed, Failed) && (last, s.stage) != (Passed, PreFailed)
             && (side == ManagerSide ==> (last, s.stage) != (NotTested, Failed)))
  {
    match last {
      case NotTested =>
      case PreFailed =>
      case Failed =>
      case PrePassed =>
      case Passed =>
    }
  }

  // ---------------------------------------------------------------- a fault that comes back

  /** Whether a debouncer that was restarted at this very instant reports the event. */
  predicate ReportsAtOnce(mode: DebounceMode) {
    match mode
    case WindowMode(minCount, _) => minCount <= 1
    case HoldMode(_) => false
    case CooldownMode(cooldown) => cooldown == 0
  }

  /**
   A failure right after Passed restarts the debouncer and is then put to it at the same
   instant: it gets through exactly if there is no debouncer or a restarted one reports at once.
   */
  lemma ReoccurrenceReported(side: Side, mode: Option<DebounceMode>, p: Pipeline, s: Stamp)
    requires p.lastStage == Some(Passed) && IsFailure(s.stage) && s.resetAt == s.eventAt
    requires p.debouncer.Some? ==> mode == Some(p.debouncer.value.mode)
    requires p.debouncer.None? ==> mode.None?
    ensures Process(side, mode, p, s).0 <==> (mode.None? || ReportsAtOnce(mode.value))
  {
    if mode.Some? && mode.value.WindowMode? {
      var t: seq<Instant> := [];
      assert DropExpired(t, s.eventAt, mode.value.window) + [s.eventAt] == [s.eventAt];
    }
  }
}
