/** The reporter: one handle per fault, filtering its records before they reach the sink. */
module Reporter {
  import opened Basics
  import opened Debounce
  import opened Faults
  import opened DebouncePipeline

  datatype SinkError =
    | TransportDown | RateLimited | PermissionDenied | BadDescriptor | Other
    | InvalidServiceName | Timeout | QueueFull

  datatype SinkResult = Accepted | Refused(error: SinkError)

  datatype ReporterError = CatalogNotInitialized | FaultIdNotFound(id: FaultId) | SinkNotAvailable(error: SinkError)

  /** One call of `Publish`, with the monotonic time at which it was made. */
  datatype Publication = Publication(path: string, record: FaultRecord, at: Instant)

  function StampOf(p: Publication): Stamp {
    Stamp(p.record.stage, p.at, p.at)
  }

  function Stamps(log: seq<Publication>): (s: seq<Stamp>)
    ensures |s| == |log|
  {
    if log == [] then [] else Stamps(log[..|log| - 1]) + [StampOf(log[|log| - 1])]
  }

  /** The specification: which of the published records reach the sink, in order. */
  function Delivered(mode: Option<DebounceMode>, log: seq<Publication>): seq<(string, FaultRecord)> {
    if log == [] then []
    else
      var before, p := log[..|log| - 1], log[|log| - 1];
      Delivered(mode, before)
      + if LetsThrough(ReporterSide, mode, Some(NotTested), Stamps(before), StampOf(p))
        then [(p.path, p.record)] else []
  }

  /** Debouncer, stage tracker and sink all stand for the same log of publications. */
  ghost predicate StandsFor(mode: Option<DebounceMode>, log: seq<Publication>, p: Pipeline, sunk: seq<(string, FaultRecord)>) {
    && Reached(ReporterSide, mode, Some(NotTested), Stamps(log), p)
    && (ClockOrdered(Stamps(log)) ==> sunk == Delivered(mode, log))
  }

  lemma PublishStandsFor(mode: Option<DebounceMode>, log: seq<Publication>, p: Pipeline,
                         sunk: seq<(string, FaultRecord)>, next: Publication)
    requires StandsFor(mode, log, p, sunk)
    ensures var (passes, p') := Process(ReporterSide, mode, p, StampOf(next));
            StandsFor(mode, log + [next], p', if passes then sunk + [(next.path, next.record)] else sunk)
  {
    var s := StampOf(next);
    assert (log + [next])[..|log|] == log;
    assert Stamps(log + [next]) == Stamps(log) + [s];
    ProcessReaches(ReporterSide, mode, Some(NotTested), Stamps(log), s, p);
    if ClockOrdered(Stamps(log) + [s]) {
      ProcessRefines(ReporterSide, mode, Some(NotTested), Stamps(log), s, p);
      ClockOrderedSnoc(Stamps(log), s);
    }
  }

  class Reporter {
    const descriptor: FaultDescriptor
    var debouncer: Option<Debouncer>
    var lastStage: LifecycleStage
    /** The records handed to the sink, whatever it answered. */
    var sunk: seq<(string, FaultRecord)>
    ghost var log: seq<Publication>

    ghost predicate Valid()
      reads this
    {
      && StandsFor(descriptor.reporterSideDebounce, log, Pipeline(debouncer, Some(lastStage)), sunk)
      && (debouncer.None? <==> descriptor.reporterSideDebounce.None?)
    }

    constructor (descriptor: FaultDescriptor)
      ensures Valid() && log == [] && this.descriptor == descriptor && lastStage == NotTested && sunk == []
    {
      this.descriptor := descriptor;
      debouncer := if descriptor.reporterSideDebounce.None? then None
                   else Some(Fresh(descriptor.reporterSideDebounce.value));
      lastStage := NotTested;
      sunk := [];
      log := [];
    }

    /**
     Over every run, the sink has been given exactly the records the specification debouncer
     lets through. A suppressed record is answered with success.
     */
    method Publish(path: string, record: FaultRecord, now: Instant, sink: SinkResult) returns (result: SinkResult)
      requires Valid()
      modifies this
      ensures Valid() && log == old(log) + [Publication(path, record, now)]
      ensures ClockOrdered(Stamps(log)) ==> sunk == Delivered(descriptor.reporterSideDebounce, log)
      ensures sunk == old(sunk) ==> result == Accepted
      ensures sunk != old(sunk) ==> sunk == old(sunk) + [(path, record)] && result == sink
    {
      PublishStandsFor(descriptor.reporterSideDebounce, log, Pipeline(debouncer, Some(lastStage)), sunk,
                       Publication(path, record, now));
      log := log + [Publication(path, record, now)];

      if Restarts(ReporterSide, lastStage, record.stage) && debouncer.Some? {
        debouncer := Some(ResetStep(debouncer.value, now));
      }
      if debouncer.Some? {
        var (report, after) := EventStep(debouncer.value, now);
        debouncer := Some(after);
        if !report {
          lastStage := record.stage;
          return Accepted;
        }
      }
      lastStage := record.stage;
      sunk := sunk + [(path, record)];
      result := sink;
    }
  }

  /** The sink is asked for first, then the catalog, then the descriptor; the first missing one is reported. */
  method NewReporter(sink: SinkResult, catalog: Option<Catalog>, id: FaultId) returns (r: Result<Reporter, ReporterError>)
    ensures sink.Refused? ==> r == Err(SinkNotAvailable(sink.error))
    ensures sink.Accepted? && catalog.None? ==> r == Err(CatalogNotInitialized)
    ensures sink.Accepted? && catalog.Some? && id !in catalog.value ==> r == Err(FaultIdNotFound(id))
    ensures sink.Accepted? && catalog.Some? && id in catalog.value ==>
              r.Ok? && fresh(r.value) && r.value.Valid() && r.value.log == [] && r.value.descriptor == catalog.value[id]
              && r.value.lastStage == NotTested && r.value.sunk == []
  {
    if sink.Refused? {
      return Err(SinkNotAvailable(sink.error));
    }
    if catalog.None? {
      return Err(CatalogNotInitialized);
    }
    if id !in catalog.value {
      return Err(FaultIdNotFound(id));
    }
    var reporter := new Reporter(catalog.value[id]);
    r := Ok(reporter);
  }

  /**
   The doc comment of `should_reset_debouncer` wants a fresh occurrence after Passed not to be
   suppressed. A reporter whose debouncer must hold for a while drops it, whatever the duration.
   */
  lemma ReoccurrenceCanBeDropped(duration: Duration, stage: LifecycleStage, now: Instant, start: Option<Instant>)
    requires IsFailure(stage)
    ensures var p := Pipeline(Some(Debouncer(HoldMode(duration), [], start)), Some(Passed));
            !Process(ReporterSide, Some(HoldMode(duration)), p, Stamp(stage, now, now)).0
  {
    var p := Pipeline(Some(Debouncer(HoldMode(duration), [], start)), Some(Passed));
    ReoccurrenceReported(ReporterSide, Some(HoldMode(duration)), p, Stamp(stage, now, now));
  }
}
