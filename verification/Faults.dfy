/** Fault identities, descriptors and records shared by the reporter and the manager. */
module Faults {
  import opened Basics
  import opened Debounce

  const SHORT_CAPACITY: nat := 64
  const LONG_CAPACITY: nat := 128

  /** Characters of the fixed-size strings that cross process boundaries. */
  predicate IsAscii(s: string) {
    forall c :: c in s ==> c < 128 as char
  }

  type ShortString = s: string | |s| <= SHORT_CAPACITY && IsAscii(s) witness ""
  type LongString = s: string | |s| <= LONG_CAPACITY && IsAscii(s) witness ""
  type Uuid = u: seq<U8> | |u| == 16 witness seq(16, _ => 0)

  datatype FaultId = Numeric(n: U32) | Text(text: ShortString) | Uuid(bytes: Uuid)

  datatype LifecycleStage = NotTested | PreFailed | Failed | PrePassed | Passed

  datatype FaultSeverity = Trace | Debug | Info | Warn | Error | Fatal {
    function AsU32(): U32 {
      match this
      case Trace => 0
      case Debug => 1
      case Info => 2
      case Warn => 3
      case Error => 4
      case Fatal => 5
    }
  }

  datatype ComplianceTag = EmissionRelevant | SafetyCritical | SecurityRelevant | LegalHold

  /** When a latched fault may be cleared without a tool. */
  datatype ResetTrigger =
    | PowerCycles(minPower: U32)
    | OperationCycles(minCycles: U32, cycleRef: ShortString)
    | StableFor(duration: Duration)
    | ToolOnly

  datatype ResetPolicy = ResetPolicy(trigger: ResetTrigger, minOperatingCycles: Option<U32>)

  datatype FaultDescriptor = FaultDescriptor(
    id: FaultId,
    name: ShortString,
    summary: Option<LongString>,
    severity: FaultSeverity,
    compliance: seq<ComplianceTag>,
    reporterSideDebounce: Option<DebounceMode>,
    managerSideDebounce: Option<DebounceMode>,
    managerSideReset: Option<ResetPolicy>)

  type EnvData = map<string, string>

  datatype FaultRecord = FaultRecord(id: FaultId, stage: LifecycleStage, envData: seq<(string, string)>)

  type Catalog = map<FaultId, FaultDescriptor>
  type CatalogRegistry = map<string, Catalog>

  predicate IsFailure(stage: LifecycleStage) {
    stage.Failed? || stage.PreFailed?
  }
}
