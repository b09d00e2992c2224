/** The messages a fault library sends to the manager, and the one it gets back. */
module DiagnosticEvents {
  import opened Basics
  import opened Faults

  datatype EnablingConditionStatus = Active | Inactive

  datatype DiagnosticEvent =
    | HashCheck(path: LongString, hash: seq<U8>)
    | Fault(path: LongString, record: FaultRecord)
    | EnablingConditionRegister(entity: ShortString)
    | EnablingConditionStatusChange(id: ShortString, status: EnablingConditionStatus)

  datatype EnablingConditionNotification = EnablingConditionNotification(id: ShortString, status: EnablingConditionStatus)
}
