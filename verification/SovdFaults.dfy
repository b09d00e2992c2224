/** Faults as a diagnostic tool sees them: descriptor, status byte, counters and times. */
module SovdFaults {
  import opened Basics
  import opened Digits
  import opened Faults
  import opened Aging
  import opened SovdCodes
  import opened Timestamps

  datatype SovdFaultStatus = SovdFaultStatus(
    testFailed: Option<bool>,
    testFailedThisOperationCycle: Option<bool>,
    pendingDtc: Option<bool>,
    confirmedDtc: Option<bool>,
    testNotCompletedSinceLastClear: Option<bool>,
    testFailedSinceLastClear: Option<bool>,
    testNotCompletedThisOperationCycle: Option<bool>,
    warningIndicatorRequested: Option<bool>,
    mask: Option<string>)
  {
    /** The flag at a position of the status byte of ISO 14229-1, Annex D.2; unknown reads as clear. */
    function Flag(bit: nat): bool
      requires bit < 8
    {
      match bit
      case 0 => testFailed.GetOr(false)
      case 1 => testFailedThisOperationCycle.GetOr(false)
      case 2 => pendingDtc.GetOr(false)
      case 3 => confirmedDtc.GetOr(false)
      case 4 => testNotCompletedSinceLastClear.GetOr(false)
      case 5 => testFailedSinceLastClear.GetOr(false)
      case 6 => testNotCompletedThisOperationCycle.GetOr(false)
      case 7 => warningIndicatorRequested.GetOr(false)
    }
  }

  function Weight(bit: nat): bv8
    requires bit < 8
  {
    match bit
    case 0 => 0x01
    case 1 => 0x02
    case 2 => 0x04
    case 3 => 0x08
    case 4 => 0x10
    case 5 => 0x20
    case 6 => 0x40
    case 7 => 0x80
  }

  predicate HasBit(mask: bv8, bit: nat)
    requires bit < 8
  {
    mask & Weight(bit) != 0
  }

  function SetIf(flag: Option<bool>, weight: bv8): bv8 {
    if flag.GetOr(false) then weight else 0
  }

  function MaskOf(s: SovdFaultStatus): bv8 {
    SetIf(s.testFailed, 0x01) | SetIf(s.testFailedThisOperationCycle, 0x02)
    | SetIf(s.pendingDtc, 0x04) | SetIf(s.confirmedDtc, 0x08)
    | SetIf(s.testNotCompletedSinceLastClear, 0x10) | SetIf(s.testFailedSinceLastClear, 0x20)
    | SetIf(s.testNotCompletedThisOperationCycle, 0x40) | SetIf(s.warningIndicatorRequested, 0x80)
  }

  /** The byte built flag by flag. */
  method ComputeMask(s: SovdFaultStatus) returns (mask: bv8)
    ensures mask == MaskOf(s)
  {
    mask := 0;
    if s.testFailed.GetOr(false) {
      mask := mask | 0x01;
    }
    if s.testFailedThisOperationCycle.GetOr(false) {
      mask := mask | 0x02;
    }
    if s.pendingDtc.GetOr(false) {
      mask := mask | 0x04;
    }
    if s.confirmedDtc.GetOr(false) {
      mask := mask | 0x08;
    }
    if s.testNotCompletedSinceLastClear.GetOr(false) {
      mask := mask | 0x10;
    }
    if s.testFailedSinceLastClear.GetOr(false) {
      mask := mask | 0x20;
    }
    if s.testNotCompletedThisOperationCycle.GetOr(false) {
      mask := mask | 0x40;
    }
    if s.warningIndicatorRequested.GetOr(false) {
      mask := mask | 0x80;
    }
  }

  predicate MaskShowsFlags(mask: bv8, s: SovdFaultStatus) {
    forall bit :: 0 <= bit < 8 ==> (HasBit(mask, bit) <==> s.Flag(bit))
  }

  lemma LowFlags(s: SovdFaultStatus)
    ensures HasBit(MaskOf(s), 0) == s.Flag(0) && HasBit(MaskOf(s), 1) == s.Flag(1)
    ensures HasBit(MaskOf(s), 2) == s.Flag(2) && HasBit(MaskOf(s), 3) == s.Flag(3)
  {
  }

  lemma HighFlags(s: SovdFaultStatus)
    ensures HasBit(MaskOf(s), 4) == s.Flag(4) && HasBit(MaskOf(s), 5) == s.Flag(5)
    ensures HasBit(MaskOf(s), 6) == s.Flag(6) && HasBit(MaskOf(s), 7) == s.Flag(7)
  {
  }

  /** A byte is determined by its eight bits. */
  lemma SameBits(a: bv8, b: bv8)
    requires HasBit(a, 0) == HasBit(b, 0) && HasBit(a, 1) == HasBit(b, 1)
    requires HasBit(a, 2) == HasBit(b, 2) && HasBit(a, 3) == HasBit(b, 3)
    requires HasBit(a, 4) == HasBit(b, 4) && HasBit(a, 5) == HasBit(b, 5)
    requires HasBit(a, 6) == HasBit(b, 6) && HasBit(a, 7) == HasBit(b, 7)
    ensures a == b
  {
  }

  lemma MaskOfShowsFlags(s: SovdFaultStatus)
    ensures MaskShowsFlags(MaskOf(s), s)
  {
    LowFlags(s);
    HighFlags(s);
  }

  /** The byte decodes to exactly the eight flags, and no other byte does. */
  lemma MaskDecodes(s: SovdFaultStatus, mask: bv8)
    ensures mask == MaskOf(s) <==> MaskShowsFlags(mask, s)
  {
    MaskOfShowsFlags(s);
    if MaskShowsFlags(mask, s) {
      ShowingIsUnique(mask, MaskOf(s), s);
    }
  }

  lemma ShowingIsUnique(a: bv8, b: bv8, s: SovdFaultStatus)
    requires MaskShowsFlags(a, s) && MaskShowsFlags(b, s)
    ensures a == b
  {
    assert HasBit(a, 0) == HasBit(b, 0) && HasBit(a, 1) == HasBit(b, 1);
    assert HasBit(a, 2) == HasBit(b, 2) && HasBit(a, 3) == HasBit(b, 3);
    assert HasBit(a, 4) == HasBit(b, 4) && HasBit(a, 5) == HasBit(b, 5);
    assert HasBit(a, 6) == HasBit(b, 6) && HasBit(a, 7) == HasBit(b, 7);
    SameBits(a, b);
  }

  function ByteText(n: nat): string {
    "0x" + Padded(n, 2, 16, true)
  }

  lemma ByteTextReads(n: nat)
    requires n < 256
    ensures |ByteText(n)| == 4 && FromStrRadix(ByteText(n)[2..], 16, 255) == Some(n)
  {
    assert Pow(16, 2) == 256;
    PaddedIsFixed(n, 2, 16, true);
    ValueOfFixed(n, 2, 16, true);
    assert ByteText(n)[2..] == Fixed(n, 2, 16, true);
    DigitValueOfChar(n / 16 % 16, true, 16);
    assert Fixed(n, 2, 16, true) == [DigitChar(n / 16 % 16, true), DigitChar(n % 16, true)];
  }

  lemma ByteTextDigits(n: nat)
    requires n < 256
    ensures ByteText(n) == "0x" + [UPPER_DIGITS[n / 16], UPPER_DIGITS[n % 16]]
  {
    assert Pow(16, 2) == 256;
    PaddedIsFixed(n, 2, 16, true);
    HexDigits(n / 16);
    HexDigits(n % 16);
    assert Fixed(n, 2, 16, true) == [DigitChar(n / 16 % 16, true), DigitChar(n % 16, true)];
  }

  function MaskText(mask: bv8): string {
    ByteText(mask as nat)
  }

  /** The mask text is 0x and two upper-case digits, and reads back as the byte. */
  lemma MaskTextReads(mask: bv8)
    ensures |MaskText(mask)| == 4 && FromStrRadix(MaskText(mask)[2..], 16, 255) == Some(mask as nat)
    ensures var n := mask as nat; MaskText(mask) == "0x" + [UPPER_DIGITS[n / 16], UPPER_DIGITS[n % 16]]
  {
    ByteTextReads(mask as nat);
    ByteTextDigits(mask as nat);
  }

  lemma MaskIgnoresText(s: SovdFaultStatus, text: Option<string>)
    ensures MaskOf(s.(mask := text)) == MaskOf(s)
  {
  }

  function StatusWith(st: SovdFaultState, mask: Option<string>): SovdFaultStatus {
    SovdFaultStatus(
      Some(st.testFailed), Some(st.testFailedThisOperationCycle), Some(st.pendingDtc), Some(st.confirmedDtc),
      Some(st.testNotCompletedSinceLastClear), Some(st.testFailedSinceLastClear),
      Some(st.testNotCompletedThisOperationCycle), Some(st.warningIndicatorRequested), mask)
  }

  function StatusFromState(st: SovdFaultState): SovdFaultStatus {
    StatusWith(st, Some(MaskText(MaskOf(StatusWith(st, None)))))
  }

  function WithFlag(m: map<string, string>, key: string, flag: Option<bool>): map<string, string> {
    if flag.Some? then m[key := if flag.value then "1" else "0"] else m
  }

  function ToHashMap(s: SovdFaultStatus): map<string, string> {
    var m := WithFlag(map[], "testFailed", s.testFailed);
    var m := WithFlag(m, "testFailedThisOperationCycle", s.testFailedThisOperationCycle);
    var m := WithFlag(m, "pendingDTC", s.pendingDtc);
    var m := WithFlag(m, "confirmedDTC", s.confirmedDtc);
    var m := WithFlag(m, "testNotCompletedSinceLastClear", s.testNotCompletedSinceLastClear);
    var m := WithFlag(m, "testFailedSinceLastClear", s.testFailedSinceLastClear);
    var m := WithFlag(m, "testNotCompletedThisOperationCycle", s.testNotCompletedThisOperationCycle);
    var m := WithFlag(m, "warningIndicatorRequested", s.warningIndicatorRequested);
    if s.mask.Some? then m["mask" := s.mask.value] else m
  }

  /** The names the status flags have in the map. */
  function FlagName(bit: nat): string
    requires bit < 8
  {
    match bit
    case 0 => "testFailed"
    case 1 => "testFailedThisOperationCycle"
    case 2 => "pendingDTC"
    case 3 => "confirmedDTC"
    case 4 => "testNotCompletedSinceLastClear"
    case 5 => "testFailedSinceLastClear"
    case 6 => "testNotCompletedThisOperationCycle"
    case 7 => "warningIndicatorRequested"
  }

  /** The flag at a position, unknown or not. */
  function KnownFlag(s: SovdFaultStatus, bit: nat): Option<bool>
    requires bit < 8
  {
    match bit
    case 0 => s.testFailed
    case 1 => s.testFailedThisOperationCycle
    case 2 => s.pendingDtc
    case 3 => s.confirmedDtc
    case 4 => s.testNotCompletedSinceLastClear
    case 5 => s.testFailedSinceLastClear
    case 6 => s.testNotCompletedThisOperationCycle
    case 7 => s.warningIndicatorRequested
  }

  function NameLength(bit: nat): nat
    requires bit < 8
  {
    match bit
    case 0 => 10
    case 1 => 28
    case 2 => 10
    case 3 => 12
    case 4 => 30
    case 5 => 24
    case 6 => 34
    case 7 => 25
  }

  lemma NamesDiffer(a: nat, b: nat)
    requires a < 8 && b < 8
    ensures FlagName(a) == FlagName(b) <==> a == b
    ensures FlagName(a) != "mask"
  {
    assert |FlagName(a)| == NameLength(a) && |FlagName(b)| == NameLength(b);
    assert FlagName(0)[0] == 't' && FlagName(2)[0] == 'p';
  }

  lemma FlagShows(m: map<string, string>, s: SovdFaultStatus, set_: nat, bit: nat)
    requires set_ < 8 && bit < 8
    ensures var name := FlagName(bit); var m' := WithFlag(m, FlagName(set_), KnownFlag(s, set_));
            if bit == set_
            then (KnownFlag(s, bit).Some? ==> name in m' && m'[name] == if s.Flag(bit) then "1" else "0")
                 && (KnownFlag(s, bit).None? ==> m' == m)
            else (name in m' <==> name in m) && (name in m ==> m'[name] == m[name])
  {
    NamesDiffer(set_, bit);
  }

  /** Every known flag stands in the map under its own name, an unknown one not at all. */
  lemma StatusMapShows(s: SovdFaultStatus, bit: nat)
    requires bit < 8
    ensures var m := ToHashMap(s);
            && (FlagName(bit) in m <==> KnownFlag(s, bit).Some?)
            && (FlagName(bit) in m ==> m[FlagName(bit)] == if s.Flag(bit) then "1" else "0")
            && ("mask" in m <==> s.mask.Some?) && ("mask" in m ==> m["mask"] == s.mask.value)
  {
    var m0: map<string, string> := map[];
    var m1 := WithFlag(m0, FlagName(0), KnownFlag(s, 0));
    var m2 := WithFlag(m1, FlagName(1), KnownFlag(s, 1));
    var m3 := WithFlag(m2, FlagName(2), KnownFlag(s, 2));
    var m4 := WithFlag(m3, FlagName(3), KnownFlag(s, 3));
    var m5 := WithFlag(m4, FlagName(4), KnownFlag(s, 4));
    var m6 := WithFlag(m5, FlagName(5), KnownFlag(s, 5));
    var m7 := WithFlag(m6, FlagName(6), KnownFlag(s, 6));
    FlagShows(m0, s, 0, bit);
    FlagShows(m1, s, 1, bit);
    FlagShows(m2, s, 2, bit);
    FlagShows(m3, s, 3, bit);
    FlagShows(m4, s, 4, bit);
    FlagShows(m5, s, 5, bit);
    FlagShows(m6, s, 6, bit);
    FlagShows(m7, s, 7, bit);
    NamesDiffer(bit, bit);
    OnlyFlagNames(s);
  }

  lemma OnlyFlagNames(s: SovdFaultStatus)
    ensures "mask" !in ToHashMap(s.(mask := None))
    ensures ToHashMap(s) == if s.mask.Some? then ToHashMap(s.(mask := None))["mask" := s.mask.value] else ToHashMap(s.(mask := None))
  {
    forall bit: nat | bit < 8
      ensures FlagName(bit) != "mask"
    {
      NamesDiffer(bit, bit);
    }
  }

  datatype SovdFault = SovdFault(
    code: string,
    displayCode: string,
    scope: string,
    faultName: string,
    faultTranslationId: string,
    severity: U32,
    status: map<string, string>,
    symptom: Option<string>,
    symptomTranslationId: Option<string>,
    schema: Option<string>,
    typedStatus: Option<SovdFaultStatus>,
    occurrenceCounter: Option<U32>,
    agingCounter: Option<U32>,
    healingCounter: Option<U32>,
    firstOccurrence: Option<string>,
    lastOccurrence: Option<string>)

  /** Second 0 means that the fault never occurred. */
  function OccurrenceText(secs: U64): Option<string> {
    if secs > 0 then Some(FormatUnixTimestamp(secs)) else None
  }

  function NewSovdFault(d: FaultDescriptor, st: SovdFaultState): SovdFault {
    var code := FaultIdToCode(d.id);
    var status := StatusFromState(st);
    SovdFault(
      code, code, "ecu", d.name, "fault." + code, d.severity.AsU32(), ToHashMap(status),
      if d.summary.Some? then Some(d.summary.value) else None,
      if d.summary.Some? then Some("symptom." + code) else None,
      None, Some(status), Some(st.occurrenceCounter), Some(st.agingCounter), Some(st.healingCounter),
      OccurrenceText(st.firstOccurrenceSecs), OccurrenceText(st.lastOccurrenceSecs))
  }

  // ---------------------------------------------------------------- what a fault shows, field by field

  /** The fixed part, from the catalog; severities count up from Trace. */
  predicate ShowsDescriptor(f: SovdFault, d: FaultDescriptor) {
    && f.code == FaultIdToCode(d.id) && f.displayCode == f.code && f.scope == "ecu"
    && f.faultName == d.name && f.faultTranslationId == "fault." + f.code
    && (d.severity == Trace ==> f.severity == 0) && (d.severity == Debug ==> f.severity == 1)
    && (d.severity == Info ==> f.severity == 2) && (d.severity == Warn ==> f.severity == 3)
    && (d.severity == Error ==> f.severity == 4) && (d.severity == Fatal ==> f.severity == 5)
    && (d.summary.None? ==> f.symptom.None? && f.symptomTranslationId.None?)
    && (d.summary.Some? ==> f.symptom == Some(d.summary.value) && f.symptomTranslationId == Some("symptom." + f.code))
    && f.schema.None?
  }

  /** A time that was never set is not shown; any other is shown as its text. */
  predicate ShowsTime(text: Option<string>, secs: U64) {
    if secs == 0 then text == None else text == Some(FormatUnixTimestamp(secs))
  }

  /** The stored flags, counters and times. */
  ghost predicate ShowsState(f: SovdFault, st: SovdFaultState) {
    && f.typedStatus.Some?
    && f.typedStatus.value.testFailed == Some(st.testFailed)
    && f.typedStatus.value.testFailedThisOperationCycle == Some(st.testFailedThisOperationCycle)
    && f.typedStatus.value.pendingDtc == Some(st.pendingDtc)
    && f.typedStatus.value.confirmedDtc == Some(st.confirmedDtc)
    && f.typedStatus.value.testNotCompletedSinceLastClear == Some(st.testNotCompletedSinceLastClear)
    && f.typedStatus.value.testFailedSinceLastClear == Some(st.testFailedSinceLastClear)
    && f.typedStatus.value.testNotCompletedThisOperationCycle == Some(st.testNotCompletedThisOperationCycle)
    && f.typedStatus.value.warningIndicatorRequested == Some(st.warningIndicatorRequested)
    && f.occurrenceCounter == Some(st.occurrenceCounter)
    && f.agingCounter == Some(st.agingCounter) && f.healingCounter == Some(st.healingCounter)
    && ShowsTime(f.firstOccurrence, st.firstOccurrenceSecs) && ShowsTime(f.lastOccurrence, st.lastOccurrenceSecs)
    && ShowsStatus(f)
  }

  /** A fault that has no stored state: nothing set, nothing counted, no time. */
  ghost predicate ShowsClear(f: SovdFault) {
    && f.typedStatus.Some?
    && (forall bit :: 0 <= bit < 8 ==> KnownFlag(f.typedStatus.value, bit) == Some(false))
    && f.occurrenceCounter == Some(0) && f.agingCounter == Some(0) && f.healingCounter == Some(0)
    && f.firstOccurrence == None && f.lastOccurrence == None && ShowsStatus(f)
  }

  /** The mask text is that of the eight flags, and the map says the same under each name. */
  ghost predicate ShowsStatus(f: SovdFault)
    requires f.typedStatus.Some?
  {
    var s := f.typedStatus.value;
    && s.mask.Some? && (exists mask: bv8 :: MaskShowsFlags(mask, s) && s.mask.value == MaskText(mask))
    && "mask" in f.status && f.status["mask"] == s.mask.value
    && forall bit :: 0 <= bit < 8 ==> FlagName(bit) in f.status && f.status[FlagName(bit)] == if s.Flag(bit) then "1" else "0"
  }

  lemma StatusShows(st: SovdFaultState, f: SovdFault)
    requires f.typedStatus == Some(StatusFromState(st)) && f.status == ToHashMap(StatusFromState(st))
    ensures ShowsStatus(f)
  {
    var s := StatusFromState(st);
    MaskIgnoresText(StatusWith(st, None), s.mask);
    MaskOfShowsFlags(s);
    assert s.mask.value == MaskText(MaskOf(s));
    forall bit | 0 <= bit < 8
      ensures FlagName(bit) in f.status && f.status[FlagName(bit)] == if s.Flag(bit) then "1" else "0"
    {
      StatusMapShows(s, bit);
    }
    StatusMapShows(s, 0);
  }

  /** A fault shows its descriptor and its state. */
  lemma NewFaultShows(d: FaultDescriptor, st: SovdFaultState)
    ensures ShowsDescriptor(NewSovdFault(d, st), d) && ShowsState(NewSovdFault(d, st), st)
  {
    StatusShows(st, NewSovdFault(d, st));
  }

  /** The state a fault is given when nothing is stored for it. */
  lemma DefaultShowsClear(d: FaultDescriptor)
    ensures ShowsClear(NewSovdFault(d, DEFAULT_STATE))
  {
    StatusShows(DEFAULT_STATE, NewSovdFault(d, DEFAULT_STATE));
  }
}
