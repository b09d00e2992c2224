/** Faults on the wire: fixed-size strings, flat flags and times in seconds. */
module QueryConversion {
  import opened Basics
  import opened Digits
  import opened Faults
  import opened Aging
  import opened StorageKeys
  import opened SovdCodes
  import opened Timestamps
  import opened SovdFaults
  import opened FaultProcessing

  const ENV_CAPACITY: nat := 8

  datatype IpcSovdFault = IpcSovdFault(
    code: ShortString,
    displayCode: ShortString,
    scope: ShortString,
    faultName: ShortString,
    faultTranslationId: ShortString,
    severity: U32,
    statusMask: bv8,
    testFailed: bool,
    testFailedThisOperationCycle: bool,
    pendingDtc: bool,
    confirmedDtc: bool,
    testNotCompletedSinceLastClear: bool,
    testFailedSinceLastClear: bool,
    testNotCompletedThisOperationCycle: bool,
    warningIndicatorRequested: bool,
    occurrenceCounter: U32,
    agingCounter: U32,
    healingCounter: U32,
    firstOccurrenceSecs: U64,
    lastOccurrenceSecs: U64,
    symptom: LongString,
    hasSymptom: bool,
    symptomTranslationId: ShortString,
    hasSymptomTranslationId: bool)

  /** Cut to the capacity; what cannot be stored becomes empty. */
  function Truncated(s: string, capacity: nat): (t: string)
    ensures |t| <= capacity && IsAscii(t)
  {
    var t := if |s| > capacity then s[..capacity] else s;
    if IsAscii(t) then t else ""
  }

  function ShortStr(s: string): ShortString {
    Truncated(s, SHORT_CAPACITY)
  }

  function LongStr(s: string): LongString {
    Truncated(s, LONG_CAPACITY)
  }

  function FlagOf(status: Option<SovdFaultStatus>, bit: nat): bool
    requires bit < 8
  {
    status.Some? && status.value.Flag(bit)
  }

  function SovdFaultToIpc(f: SovdFault): IpcSovdFault {
    var s := f.typedStatus;
    IpcSovdFault(
      ShortStr(f.code), ShortStr(f.displayCode), ShortStr(f.scope), ShortStr(f.faultName),
      ShortStr(f.faultTranslationId), f.severity,
      if s.Some? then MaskOf(s.value) else 0,
      FlagOf(s, 0), FlagOf(s, 1), FlagOf(s, 2), FlagOf(s, 3), FlagOf(s, 4), FlagOf(s, 5), FlagOf(s, 6), FlagOf(s, 7),
      f.occurrenceCounter.GetOr(0), f.agingCounter.GetOr(0), f.healingCounter.GetOr(0),
      ParseIsoTimestamp(f.firstOccurrence), ParseIsoTimestamp(f.lastOccurrence),
      if f.symptom.Some? then LongStr(f.symptom.value) else "", f.symptom.Some?,
      if f.symptomTranslationId.Some? then ShortStr(f.symptomTranslationId.value) else "", f.symptomTranslationId.Some?)
  }

  function WireStatusWith(w: IpcSovdFault, mask: Option<string>): SovdFaultStatus {
    SovdFaultStatus(
      Some(w.testFailed), Some(w.testFailedThisOperationCycle), Some(w.pendingDtc), Some(w.confirmedDtc),
      Some(w.testNotCompletedSinceLastClear), Some(w.testFailedSinceLastClear),
      Some(w.testNotCompletedThisOperationCycle), Some(w.warningIndicatorRequested), mask)
  }

  function WireStatus(w: IpcSovdFault): SovdFaultStatus {
    WireStatusWith(w, Some(MaskText(w.statusMask)))
  }

  function IpcFaultToSovd(w: IpcSovdFault): SovdFault {
    var status := WireStatus(w);
    SovdFault(
      w.code, w.displayCode, w.scope, w.faultName, w.faultTranslationId, w.severity, ToHashMap(status),
      if w.hasSymptom then Some(w.symptom) else None,
      if w.hasSymptomTranslationId then Some(w.symptomTranslationId) else None,
      None, Some(status), Some(w.occurrenceCounter), Some(w.agingCounter), Some(w.healingCounter),
      OccurrenceText(w.firstOccurrenceSecs), OccurrenceText(w.lastOccurrenceSecs))
  }

  // ---------------------------------------------------------------- what survives the wire

  lemma TruncationKeeps(s: string, capacity: nat)
    ensures Truncated(s, capacity) == s <==> |s| <= capacity && IsAscii(s)
  {
  }

  lemma AsciiOfConcat(a: string, b: string)
    ensures IsAscii(a + b) <==> IsAscii(a) && IsAscii(b)
  {
    if IsAscii(a + b) {
      assert forall c :: c in a ==> c in a + b;
      assert forall c :: c in b ==> c in a + b;
    }
  }

  lemma HexIsAscii(s: string)
    requires IsHex(s)
    ensures IsAscii(s)
  {
    forall c | c in s
      ensures c < 128 as char
    {
      assert DigitValue(c, 16).Some?;
    }
  }

  lemma HexBytesAreAscii(bytes: seq<U8>)
    ensures IsAscii(HexBytes(bytes))
  {
    HexBytesParse(bytes);
    HexIsAscii(HexBytes(bytes));
  }

  lemma GroupIsAscii(group: seq<U8>, rest: string)
    requires IsAscii(rest)
    ensures IsAscii(HexBytes(group) + "-" + rest)
  {
    HexBytesAreAscii(group);
    AsciiOfConcat(HexBytes(group), "-");
    AsciiOfConcat(HexBytes(group) + "-", rest);
  }

  lemma UuidTextIsAscii(u: Uuid)
    ensures IsAscii(UuidToText(u))
  {
    var e := HexBytes(u[10..]);
    HexBytesAreAscii(u[10..]);
    GroupIsAscii(u[8..10], e);
    GroupIsAscii(u[6..8], HexBytes(u[8..10]) + "-" + e);
    GroupIsAscii(u[4..6], HexBytes(u[6..8]) + "-" + (HexBytes(u[8..10]) + "-" + e));
    GroupIsAscii(u[..4], HexBytes(u[4..6]) + "-" + (HexBytes(u[6..8]) + "-" + (HexBytes(u[8..10]) + "-" + e)));
  }

  lemma CodeIsAscii(id: FaultId)
    ensures IsAscii(FaultIdToCode(id))
  {
    match id
    case Numeric(n) =>
      PrintIsDigits(n, 16, true);
      HexIsAscii(Print(n, 16, true));
      AsciiOfConcat("0x", Print(n, 16, true));
    case Text(_) =>
    case Uuid(u) => UuidTextIsAscii(u);
  }

  /** The wire holds seconds clamped to year 9999, and they print as the original did. */
  lemma OccurrenceSurvives(secs: U64)
    ensures ParseIsoTimestamp(OccurrenceText(secs)) == Min(secs, MAX_SECS)
    ensures OccurrenceText(Min(secs, MAX_SECS)) == OccurrenceText(secs)
  {
    if secs > 0 {
      ParseOfFormat(secs);
      FormatIsLayout(secs);
      FormatIsLayout(Min(secs, MAX_SECS));
    }
  }

  lemma WireFlags(d: FaultDescriptor, st: SovdFaultState, text: Option<string>)
    ensures WireStatusWith(SovdFaultToIpc(NewSovdFault(d, st)), text) == StatusWith(st, text)
  {
  }

  lemma WireMask(d: FaultDescriptor, st: SovdFaultState)
    ensures SovdFaultToIpc(NewSovdFault(d, st)).statusMask == MaskOf(StatusWith(st, None))
  {
    var status := StatusWith(st, None);
    MaskIgnoresText(status, Some(MaskText(MaskOf(status))));
  }

  lemma StatusComesBack(d: FaultDescriptor, st: SovdFaultState)
    ensures WireStatus(SovdFaultToIpc(NewSovdFault(d, st))) == StatusFromState(st)
  {
    WireMask(d, st);
    WireFlags(d, st, Some(MaskText(MaskOf(StatusWith(st, None)))));
  }

  lemma TimesComeBack(d: FaultDescriptor, st: SovdFaultState)
    ensures var f := NewSovdFault(d, st); var f' := IpcFaultToSovd(SovdFaultToIpc(f));
            f'.firstOccurrence == f.firstOccurrence && f'.lastOccurrence == f.lastOccurrence
  {
    OccurrenceSurvives(st.firstOccurrenceSecs);
    OccurrenceSurvives(st.lastOccurrenceSecs);
  }

  /** The translation keys put at most eight characters in front of the code. */
  predicate FitsTheWire(d: FaultDescriptor) {
    var length := |FaultIdToCode(d.id)|;
    length + 6 <= SHORT_CAPACITY && (d.summary.Some? ==> length + 8 <= SHORT_CAPACITY)
  }

  lemma NamesComeBack(d: FaultDescriptor, st: SovdFaultState)
    ensures var f := NewSovdFault(d, st); var f' := IpcFaultToSovd(SovdFaultToIpc(f));
            && f'.code == f.code && f'.displayCode == f.displayCode && f'.scope == f.scope && f'.faultName == f.faultName
            && f'.symptom == f.symptom
  {
    var code := FaultIdToCode(d.id);
    CodeIsAscii(d.id);
    CodeLength(d.id);
    TruncationKeeps(code, SHORT_CAPACITY);
    TruncationKeeps("ecu", SHORT_CAPACITY);
  }

  lemma PrefixedCodeSurvives(prefix: string, id: FaultId)
    requires IsAscii(prefix)
    ensures ShortStr(prefix + FaultIdToCode(id)) == prefix + FaultIdToCode(id)
            <==> |prefix| + |FaultIdToCode(id)| <= SHORT_CAPACITY
  {
    CodeIsAscii(id);
    AsciiOfConcat(prefix, FaultIdToCode(id));
    TruncationKeeps(prefix + FaultIdToCode(id), SHORT_CAPACITY);
  }

  lemma KeysOnTheWire(f: SovdFault)
    ensures var f' := IpcFaultToSovd(SovdFaultToIpc(f));
            && f'.faultTranslationId == ShortStr(f.faultTranslationId)
            && f'.symptomTranslationId ==
               if f.symptomTranslationId.Some? then Some(ShortStr(f.symptomTranslationId.value)) else None
  {
  }

  lemma KeysAre(d: FaultDescriptor, st: SovdFaultState)
    ensures var f := NewSovdFault(d, st);
            && f.faultTranslationId == "fault." + FaultIdToCode(d.id)
            && f.symptomTranslationId == if d.summary.Some? then Some("symptom." + FaultIdToCode(d.id)) else None
  {
  }

  lemma SameFaultKey(f: SovdFault, prefix: string, id: FaultId)
    requires IsAscii(prefix) && f.faultTranslationId == prefix + FaultIdToCode(id)
    ensures IpcFaultToSovd(SovdFaultToIpc(f)).faultTranslationId == f.faultTranslationId
            <==> |prefix| + |FaultIdToCode(id)| <= SHORT_CAPACITY
  {
    KeysOnTheWire(f);
    PrefixedCodeSurvives(prefix, id);
  }

  lemma SameSymptomKey(f: SovdFault, prefix: string, id: FaultId)
    requires IsAscii(prefix) && f.symptomTranslationId == Some(prefix + FaultIdToCode(id))
    ensures IpcFaultToSovd(SovdFaultToIpc(f)).symptomTranslationId == f.symptomTranslationId
            <==> |prefix| + |FaultIdToCode(id)| <= SHORT_CAPACITY
  {
    KeysOnTheWire(f);
    PrefixedCodeSurvives(prefix, id);
  }

  lemma SameKeys(f: SovdFault, d: FaultDescriptor, fault: string, symptom: string)
    requires IsAscii(fault) && IsAscii(symptom) && |fault| == 6 && |symptom| == 8
    requires f.faultTranslationId == fault + FaultIdToCode(d.id)
    requires f.symptomTranslationId == if d.summary.Some? then Some(symptom + FaultIdToCode(d.id)) else None
    ensures var f' := IpcFaultToSovd(SovdFaultToIpc(f));
            f'.faultTranslationId == f.faultTranslationId && f'.symptomTranslationId == f.symptomTranslationId
            <==> FitsTheWire(d)
  {
    SameFaultKey(f, fault, d.id);
    if d.summary.Some? {
      SameSymptomKey(f, symptom, d.id);
    } else {
      KeysOnTheWire(f);
    }
  }

  lemma KeysComeBack(d: FaultDescriptor, st: SovdFaultState)
    ensures var f := NewSovdFault(d, st); var f' := IpcFaultToSovd(SovdFaultToIpc(f));
            f'.faultTranslationId == f.faultTranslationId && f'.symptomTranslationId == f.symptomTranslationId
            <==> FitsTheWire(d)
  {
    KeysAre(d, st);
    SameKeys(NewSovdFault(d, st), d, "fault.", "symptom.");
  }

  lemma CodeLength(id: FaultId)
    ensures |FaultIdToCode(id)| <= SHORT_CAPACITY
    ensures !id.Text? ==> |FaultIdToCode(id)| <= CODE_LENGTH
  {
    match id
    case Numeric(n) => PrintLength(n);
    case Text(_) =>
    case Uuid(u) => UuidTextShape(u);
  }

  lemma PrintLength(n: U32)
    ensures |Print(n, 16, true)| <= 8
  {
    PrintShorter(n, 8);
  }

  lemma {:induction false} PrintShorter(n: nat, w: nat)
    requires w > 0 && n < Pow(16, w)
    ensures |Print(n, 16, true)| <= w
  {
    if n >= 16 {
      assert w > 1 by { assert Pow(16, 1) == 16; }
      PrintShorter(n / 16, w - 1);
    }
  }

  /**
   A fault survives the wire in every field exactly when its translation keys fit: a code of at
   most 58 characters, or 56 if the descriptor has a summary.
   */
  lemma WireRoundTrip(d: FaultDescriptor, st: SovdFaultState)
    ensures IpcFaultToSovd(SovdFaultToIpc(NewSovdFault(d, st))) == NewSovdFault(d, st) <==> FitsTheWire(d)
  {
    StatusComesBack(d, st);
    TimesComeBack(d, st);
    NamesComeBack(d, st);
    KeysComeBack(d, st);
  }

  /** Numeric and UUID faults always fit. */
  lemma NumbersAndUuidsFit(d: FaultDescriptor)
    requires !d.id.Text?
    ensures FitsTheWire(d)
  {
    CodeLength(d.id);
  }

  /** The flags of a status, with the unknown ones taken as clear. */
  function Flattened(s: SovdFaultStatus, mask: Option<string>): SovdFaultStatus {
    SovdFaultStatus(
      Some(s.testFailed.GetOr(false)), Some(s.testFailedThisOperationCycle.GetOr(false)),
      Some(s.pendingDtc.GetOr(false)), Some(s.confirmedDtc.GetOr(false)),
      Some(s.testNotCompletedSinceLastClear.GetOr(false)), Some(s.testFailedSinceLastClear.GetOr(false)),
      Some(s.testNotCompletedThisOperationCycle.GetOr(false)), Some(s.warningIndicatorRequested.GetOr(false)), mask)
  }

  const UNKNOWN_STATUS := SovdFaultStatus(None, None, None, None, None, None, None, None, None)

  lemma WireIsFlattened(f: SovdFault, text: Option<string>)
    ensures WireStatusWith(SovdFaultToIpc(f), text) == Flattened(f.typedStatus.GetOr(UNKNOWN_STATUS), text)
  {
  }

  lemma FlattenedMask(s: SovdFaultStatus, text: Option<string>)
    ensures MaskOf(Flattened(s, text)) == MaskOf(s)
  {
  }

  lemma WireMaskIsMask(f: SovdFault)
    ensures SovdFaultToIpc(f).statusMask == MaskOf(f.typedStatus.GetOr(UNKNOWN_STATUS))
  {
  }

  lemma MaskOfWireStatus(f: SovdFault, text: Option<string>)
    ensures SovdFaultToIpc(f).statusMask == MaskOf(WireStatusWith(SovdFaultToIpc(f), text))
  {
    WireIsFlattened(f, text);
    FlattenedMask(f.typedStatus.GetOr(UNKNOWN_STATUS), text);
    WireMaskIsMask(f);
  }

  /** Whatever is put on the wire, its mask byte shows its eight flags. */
  lemma WireMaskShowsFlags(f: SovdFault)
    ensures var w := SovdFaultToIpc(f); MaskShowsFlags(w.statusMask, WireStatus(w))
  {
    var w := SovdFaultToIpc(f);
    MaskOfWireStatus(f, Some(MaskText(w.statusMask)));
    MaskDecodes(WireStatus(w), w.statusMask);
  }

  lemma FlagsOfState(st: SovdFaultState, mask: bv8)
    requires mask == MaskOf(StatusWith(st, None))
    ensures HasBit(mask, 0) == st.testFailed && HasBit(mask, 1) == st.testFailedThisOperationCycle
    ensures HasBit(mask, 2) == st.pendingDtc && HasBit(mask, 3) == st.confirmedDtc
    ensures HasBit(mask, 4) == st.testNotCompletedSinceLastClear && HasBit(mask, 5) == st.testFailedSinceLastClear
    ensures HasBit(mask, 6) == st.testNotCompletedThisOperationCycle && HasBit(mask, 7) == st.warningIndicatorRequested
  {
    var s := StatusWith(st, None);
    MaskDecodes(s, mask);
    assert HasBit(mask, 0) == s.Flag(0) && HasBit(mask, 1) == s.Flag(1);
    assert HasBit(mask, 2) == s.Flag(2) && HasBit(mask, 3) == s.Flag(3);
    assert HasBit(mask, 4) == s.Flag(4) && HasBit(mask, 5) == s.Flag(5);
    assert HasBit(mask, 6) == s.Flag(6) && HasBit(mask, 7) == s.Flag(7);
  }

  /** A state on the wire: the status byte bit by bit, the counters, and the times up to year 9999. */
  predicate WireShows(w: IpcSovdFault, st: SovdFaultState) {
    && HasBit(w.statusMask, 0) == st.testFailed && HasBit(w.statusMask, 1) == st.testFailedThisOperationCycle
    && HasBit(w.statusMask, 2) == st.pendingDtc && HasBit(w.statusMask, 3) == st.confirmedDtc
    && HasBit(w.statusMask, 4) == st.testNotCompletedSinceLastClear
    && HasBit(w.statusMask, 5) == st.testFailedSinceLastClear
    && HasBit(w.statusMask, 6) == st.testNotCompletedThisOperationCycle
    && HasBit(w.statusMask, 7) == st.warningIndicatorRequested
    && w.occurrenceCounter == st.occurrenceCounter && w.agingCounter == st.agingCounter
    && w.healingCounter == st.healingCounter
    && w.firstOccurrenceSecs == Min(st.firstOccurrenceSecs, MAX_SECS)
    && w.lastOccurrenceSecs == Min(st.lastOccurrenceSecs, MAX_SECS)
  }

  /** The byte on the wire is the stored status byte, bit by bit; counters pass unchanged, times clamped. */
  lemma WireShowsState(d: FaultDescriptor, st: SovdFaultState)
    ensures WireShows(SovdFaultToIpc(NewSovdFault(d, st)), st)
  {
    WireMask(d, st);
    FlagsOfState(st, SovdFaultToIpc(NewSovdFault(d, st)).statusMask);
    OccurrenceSurvives(st.firstOccurrenceSecs);
    OccurrenceSurvives(st.lastOccurrenceSecs);
  }

  /** What a wire fault must satisfy to be what this side would have written. */
  predicate Canonical(w: IpcSovdFault) {
    && MaskShowsFlags(w.statusMask, WireStatus(w))
    && (!w.hasSymptom ==> w.symptom == "") && (!w.hasSymptomTranslationId ==> w.symptomTranslationId == "")
    && w.firstOccurrenceSecs <= MAX_SECS && w.lastOccurrenceSecs <= MAX_SECS
  }

  lemma WireTextsStay(w: IpcSovdFault)
    ensures var w' := SovdFaultToIpc(IpcFaultToSovd(w));
            && w'.code == w.code && w'.displayCode == w.displayCode && w'.scope == w.scope && w'.faultName == w.faultName
            && w'.faultTranslationId == w.faultTranslationId
            && w'.symptom == (if w.hasSymptom then w.symptom else "")
            && w'.symptomTranslationId == (if w.hasSymptomTranslationId then w.symptomTranslationId else "")
  {
    TruncationKeeps(w.code, SHORT_CAPACITY);
    TruncationKeeps(w.displayCode, SHORT_CAPACITY);
    TruncationKeeps(w.scope, SHORT_CAPACITY);
    TruncationKeeps(w.faultName, SHORT_CAPACITY);
    TruncationKeeps(w.faultTranslationId, SHORT_CAPACITY);
    TruncationKeeps(w.symptom, LONG_CAPACITY);
    TruncationKeeps(w.symptomTranslationId, SHORT_CAPACITY);
  }

  lemma WireNumbersStay(w: IpcSovdFault)
    ensures var w' := SovdFaultToIpc(IpcFaultToSovd(w));
            && w'.firstOccurrenceSecs == Min(w.firstOccurrenceSecs, MAX_SECS)
            && w'.lastOccurrenceSecs == Min(w.lastOccurrenceSecs, MAX_SECS)
            && w'.occurrenceCounter == w.occurrenceCounter && w'.agingCounter == w.agingCounter
            && w'.healingCounter == w.healingCounter && w'.severity == w.severity
  {
    OccurrenceSurvives(w.firstOccurrenceSecs);
    OccurrenceSurvives(w.lastOccurrenceSecs);
  }

  lemma FlattenedWire(w: IpcSovdFault, text: Option<string>)
    ensures Flattened(WireStatus(w), text) == WireStatusWith(w, text)
  {
  }

  lemma WireFlagsStay(w: IpcSovdFault, text: Option<string>)
    ensures var w' := SovdFaultToIpc(IpcFaultToSovd(w));
            && WireStatusWith(w', text) == WireStatusWith(w, text)
            && w'.hasSymptom == w.hasSymptom && w'.hasSymptomTranslationId == w.hasSymptomTranslationId
  {
    WireIsFlattened(IpcFaultToSovd(w), text);
    FlattenedWire(w, text);
  }

  lemma WireMaskStays(w: IpcSovdFault)
    ensures SovdFaultToIpc(IpcFaultToSovd(w)).statusMask == w.statusMask <==> MaskShowsFlags(w.statusMask, WireStatus(w))
  {
    MaskDecodes(WireStatus(w), w.statusMask);
    var text := Some(MaskText(w.statusMask));
    MaskOfWireStatus(IpcFaultToSovd(w), text);
    WireFlagsStay(w, text);
  }

  lemma SameWire(a: IpcSovdFault, b: IpcSovdFault)
    requires WireStatusWith(a, None) == WireStatusWith(b, None)
    requires a.code == b.code && a.displayCode == b.displayCode && a.scope == b.scope && a.faultName == b.faultName
    requires a.faultTranslationId == b.faultTranslationId && a.severity == b.severity
    requires a.occurrenceCounter == b.occurrenceCounter && a.agingCounter == b.agingCounter
    requires a.healingCounter == b.healingCounter
    requires a.hasSymptom == b.hasSymptom && a.hasSymptomTranslationId == b.hasSymptomTranslationId
    ensures a == b <==> a.statusMask == b.statusMask && a.symptom == b.symptom
                        && a.symptomTranslationId == b.symptomTranslationId
                        && a.firstOccurrenceSecs == b.firstOccurrenceSecs && a.lastOccurrenceSecs == b.lastOccurrenceSecs
  {
  }

  /** The other direction: decoding and encoding again gives the same wire fault exactly for canonical ones. */
  lemma WireIsCanonical(w: IpcSovdFault)
    ensures SovdFaultToIpc(IpcFaultToSovd(w)) == w <==> Canonical(w)
  {
    WireTextsStay(w);
    WireNumbersStay(w);
    WireFlagsStay(w, None);
    WireMaskStays(w);
    SameWire(SovdFaultToIpc(IpcFaultToSovd(w)), w);
  }

  // ---------------------------------------------------------------- environment data

  predicate FitsShort(s: string) {
    |s| <= SHORT_CAPACITY && IsAscii(s)
  }

  predicate EnvFits(env: EnvData) {
    |env| <= ENV_CAPACITY && forall k :: k in env ==> FitsShort(k) && FitsShort(env[k])
  }

  function EnvFromWire(wire: seq<(ShortString, ShortString)>): EnvData {
    CollectEnv(wire)
  }

  /** At most eight entries, in the order the map hands them out; the rest is dropped. */
  method EnvDataToIpc(env: EnvData) returns (wire: seq<(ShortString, ShortString)>, ghost order: seq<string>)
    ensures SentAs(env, wire, order)
    ensures |wire| == if |env| <= 8 then |env| else 8
    ensures EnvFromWire(wire) == env <==> EnvFits(env)
  {
    wire, order := [], [];
    var keys := env.Keys;
    while keys != {}
      invariant keys <= env.Keys
      invariant |keys| + |order| == |env.Keys|
      invariant |wire| == |order| <= ENV_CAPACITY
      invariant forall i :: 0 <= i < |order| ==> order[i] in env && order[i] !in keys
      invariant forall i :: 0 <= i < |order| ==> wire[i] == (ShortStr(order[i]), ShortStr(env[order[i]]))
      invariant forall i, j :: 0 <= i < j < |order| ==> order[i] != order[j]
      decreases |keys|
    {
      if |wire| == ENV_CAPACITY {
        break;
      }
      var k :| k in keys;
      keys := keys - {k};
      wire := wire + [(ShortStr(k), ShortStr(env[k]))];
      order := order + [k];
    }
    EnvRoundTripOnWire(env, wire, order);
  }

  lemma SubsetOfSameSize<T>(a: set<T>, b: set<T>)
    requires a <= b && |a| == |b|
    ensures a == b
  {
    assert b == a + (b - a);
    assert |a + (b - a)| == |a| + |b - a|;
  }

  function SetOf(order: seq<string>): set<string> {
    set i | 0 <= i < |order| :: order[i]
  }

  lemma {:induction false} DistinctSize(order: seq<string>)
    requires forall i, j :: 0 <= i < j < |order| ==> order[i] != order[j]
    ensures |SetOf(order)| == |order|
  {
    if order != [] {
      var n := |order| - 1;
      DistinctSize(order[..n]);
      assert SetOf(order) == SetOf(order[..n]) + {order[n]};
    }
  }

  /** A collected entry comes from one of the pairs, and there are no more entries than pairs. */
  lemma {:induction false} CollectedFrom(pairs: seq<(string, string)>)
    ensures |CollectEnv(pairs)| <= |pairs|
    ensures forall k :: k in CollectEnv(pairs) ==> (k, CollectEnv(pairs)[k]) in pairs
  {
    if pairs != [] {
      var n := |pairs| - 1;
      CollectedFrom(pairs[..n]);
      var env := CollectEnv(pairs[..n]);
      assert env[pairs[n].0 := pairs[n].1].Keys == env.Keys + {pairs[n].0};
      assert |env[pairs[n].0 := pairs[n].1].Keys| <= |env.Keys| + 1;
      assert pairs[n] in pairs;
    }
  }

  lemma {:induction false} CollectedDistinct(pairs: seq<(string, string)>, i: nat)
    requires forall a, b :: 0 <= a < b < |pairs| ==> pairs[a].0 != pairs[b].0
    requires i < |pairs|
    ensures pairs[i].0 in CollectEnv(pairs) && CollectEnv(pairs)[pairs[i].0] == pairs[i].1
  {
    if i < |pairs| - 1 {
      CollectedDistinct(pairs[..|pairs| - 1], i);
    }
  }

  predicate SentAs(env: EnvData, wire: seq<(ShortString, ShortString)>, order: seq<string>) {
    && |wire| == |order| == Min(|env|, ENV_CAPACITY)
    && (forall i :: 0 <= i < |order| ==> order[i] in env && wire[i] == (ShortStr(order[i]), ShortStr(env[order[i]])))
    && (forall i, j :: 0 <= i < j < |order| ==> order[i] != order[j])
  }

  lemma FittingPairs(env: EnvData, wire: seq<(ShortString, ShortString)>, order: seq<string>, i: nat)
    requires SentAs(env, wire, order) && EnvFits(env) && i < |order|
    ensures wire[i] == (order[i], env[order[i]])
  {
    TruncationKeeps(order[i], SHORT_CAPACITY);
    TruncationKeeps(env[order[i]], SHORT_CAPACITY);
  }

  lemma EverythingSent(env: EnvData, order: seq<string>)
    requires |order| == |env|
    requires forall i :: 0 <= i < |order| ==> order[i] in env
    requires forall i, j :: 0 <= i < j < |order| ==> order[i] != order[j]
    ensures SetOf(order) == env.Keys
  {
    DistinctSize(order);
    SubsetOfSameSize(SetOf(order), env.Keys);
  }

  lemma CollectsFrom(env: EnvData, pairs: seq<(string, string)>, k: string)
    requires forall i :: 0 <= i < |pairs| ==> pairs[i].0 in env
    requires k in CollectEnv(pairs)
    ensures k in env
  {
    CollectedFrom(pairs);
    var i :| 0 <= i < |pairs| && pairs[i] == (k, CollectEnv(pairs)[k]);
  }

  lemma CollectsTo(env: EnvData, pairs: seq<(string, string)>, order: seq<string>)
    requires |pairs| == |order| && SetOf(order) == env.Keys
    requires forall i :: 0 <= i < |pairs| ==> order[i] in env && pairs[i] == (order[i], env[order[i]])
    requires forall i, j :: 0 <= i < j < |order| ==> order[i] != order[j]
    ensures CollectEnv(pairs) == env
  {
    var back := CollectEnv(pairs);
    forall k | k in env
      ensures k in back && back[k] == env[k]
    {
      assert k in SetOf(order);
      var i :| 0 <= i < |order| && order[i] == k;
      CollectedDistinct(pairs, i);
    }
    forall k | k in back
      ensures k in env
    {
      CollectsFrom(env, pairs, k);
    }
  }

  lemma FittingEnvSurvives(env: EnvData, wire: seq<(ShortString, ShortString)>, order: seq<string>)
    requires SentAs(env, wire, order) && EnvFits(env)
    ensures EnvFromWire(wire) == env
  {
    forall i | 0 <= i < |order|
      ensures wire[i] == (order[i], env[order[i]])
    {
      FittingPairs(env, wire, order, i);
    }
    EverythingSent(env, order);
    CollectsTo(env, wire, order);
  }

  lemma SurvivingEnvFits(env: EnvData, wire: seq<(ShortString, ShortString)>)
    requires |wire| <= ENV_CAPACITY && EnvFromWire(wire) == env
    ensures EnvFits(env)
  {
    CollectedFrom(wire);
    forall k | k in env
      ensures FitsShort(k) && FitsShort(env[k])
    {
      var i :| 0 <= i < |wire| && wire[i] == (k, env[k]);
      var a: ShortString, b: ShortString := wire[i].0, wire[i].1;
    }
  }

  /** Environment data survives exactly when there are at most eight entries and all of them are short. */
  lemma EnvRoundTripOnWire(env: EnvData, wire: seq<(ShortString, ShortString)>, order: seq<string>)
    requires SentAs(env, wire, order)
    ensures EnvFromWire(wire) == env <==> EnvFits(env)
  {
    if EnvFits(env) {
      FittingEnvSurvives(env, wire, order);
    }
    if EnvFromWire(wire) == env {
      SurvivingEnvFits(env, wire);
    }
  }
}
