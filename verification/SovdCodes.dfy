/** Fault codes as diagnostic tools see them: hexadecimal numbers, UUIDs or plain text. */
module SovdCodes {
  import opened Basics
  import opened Digits
  import opened Faults
  import opened StorageKeys

  datatype SovdError = BadArgument | NotFound | StorageFailed(error: StorageError)

  const CODE_LENGTH: nat := 36

  function FiveGroups(a: seq<U8>, b: seq<U8>, c: seq<U8>, d: seq<U8>, e: seq<U8>): string {
    HexBytes(a) + "-" + (HexBytes(b) + "-" + (HexBytes(c) + "-" + (HexBytes(d) + "-" + HexBytes(e))))
  }

  /** The 8-4-4-4-12 text form of section 3 of RFC 4122. */
  function UuidToText(u: Uuid): string {
    FiveGroups(u[..4], u[4..6], u[6..8], u[8..10], u[10..])
  }

  function FaultIdToCode(id: FaultId): string {
    match id
    case Numeric(n) => "0x" + Print(n, 16, true)
    case Text(t) => t
    case Uuid(u) => UuidToText(u)
  }

  function WithoutDashes(s: string): string {
    if s == "" then "" else (if s[0] == '-' then "" else [s[0]]) + WithoutDashes(s[1..])
  }

  function Dashes(s: string): nat {
    if s == "" then 0 else (if s[0] == '-' then 1 else 0) + Dashes(s[1..])
  }

  /** The digits may stand anywhere among the dashes. */
  function UuidOfText(s: string): Option<Uuid> {
    var hex := WithoutDashes(s);
    if |hex| != 32 then None else ParseHexBytes(hex)
  }

  method ParseUuidString(s: string) returns (bytes: Option<Uuid>)
    ensures bytes == UuidOfText(s)
  {
    var hex := WithoutDashes(s);
    if |hex| != 32 {
      return None;
    }
    bytes := FillBytes(hex);
  }

  predicate HasHexPrefix(code: string) {
    "0x" <= code || "0X" <= code
  }

  predicate ReadsAsUuid(code: string) {
    |code| == CODE_LENGTH && Dashes(code) == 4 && UuidOfText(code).Some?
  }

  function FaultIdFromCode(code: string): Result<FaultId, SovdError> {
    if HasHexPrefix(code) then
      var n := FromStrRadix(code[2..], 16, U32_MAX);
      if n.None? then Err(BadArgument) else Ok(Numeric(n.value))
    else if ReadsAsUuid(code) then Ok(FaultId.Uuid(UuidOfText(code).value))
    else
      var text := ToShortString(code);
      if text.None? then Err(BadArgument) else Ok(Text(text.value))
  }

  // ---------------------------------------------------------------- the UUID text form

  lemma {:induction false} DashesOfConcat(a: string, b: string)
    ensures WithoutDashes(a + b) == WithoutDashes(a) + WithoutDashes(b)
    ensures Dashes(a + b) == Dashes(a) + Dashes(b)
  {
    if a == "" {
      assert a + b == b;
    } else {
      assert (a + b)[1..] == a[1..] + b;
      DashesOfConcat(a[1..], b);
    }
  }

  predicate IsHex(s: string) {
    forall c :: c in s ==> DigitValue(c, 16).Some?
  }

  lemma {:induction false} HexHasNoDashes(s: string)
    requires IsHex(s)
    ensures WithoutDashes(s) == s && Dashes(s) == 0
  {
    if s != "" {
      assert s[0] in s;
      HexHasNoDashes(s[1..]);
    }
  }

  lemma {:induction false} HexBytesOfConcat(a: seq<U8>, b: seq<U8>)
    ensures HexBytes(a + b) == HexBytes(a) + HexBytes(b)
  {
    if a == [] {
      assert a + b == b;
    } else {
      assert (a + b)[1..] == a[1..] + b;
      HexBytesOfConcat(a[1..], b);
    }
  }

  /** A group of hex digits in front of the rest, with a dash between them. */
  lemma DashGroup(group: seq<U8>, rest: string)
    ensures var s := HexBytes(group) + "-" + rest;
            WithoutDashes(s) == HexBytes(group) + WithoutDashes(rest) && Dashes(s) == 1 + Dashes(rest)
            && |s| == 2 * |group| + 1 + |rest|
  {
    HexBytesParse(group);
    HexHasNoDashes(HexBytes(group));
    DashesOfConcat(HexBytes(group) + "-", rest);
    DashesOfConcat(HexBytes(group), "-");
    assert WithoutDashes("-") == "" && Dashes("-") == 1;
  }

  lemma GroupsShape(a: seq<U8>, b: seq<U8>, c: seq<U8>, d: seq<U8>, e: seq<U8>)
    ensures Dashes(FiveGroups(a, b, c, d, e)) == 4
    ensures |FiveGroups(a, b, c, d, e)| == 4 + 2 * (|a| + |b| + |c| + |d| + |e|)
    ensures WithoutDashes(FiveGroups(a, b, c, d, e))
            == HexBytes(a) + (HexBytes(b) + (HexBytes(c) + (HexBytes(d) + HexBytes(e))))
  {
    HexBytesParse(e);
    HexHasNoDashes(HexBytes(e));
    DashGroup(d, HexBytes(e));
    DashGroup(c, HexBytes(d) + "-" + HexBytes(e));
    DashGroup(b, HexBytes(c) + "-" + (HexBytes(d) + "-" + HexBytes(e)));
    DashGroup(a, HexBytes(b) + "-" + (HexBytes(c) + "-" + (HexBytes(d) + "-" + HexBytes(e))));
  }

  lemma GroupsOfBytes(u: Uuid)
    ensures HexBytes(u[..4]) + (HexBytes(u[4..6]) + (HexBytes(u[6..8]) + (HexBytes(u[8..10]) + HexBytes(u[10..]))))
            == HexBytes(u)
  {
    HexBytesOfConcat(u[8..10], u[10..]);
    assert u[8..10] + u[10..] == u[8..];
    HexBytesOfConcat(u[6..8], u[8..]);
    assert u[6..8] + u[8..] == u[6..];
    HexBytesOfConcat(u[4..6], u[6..]);
    assert u[4..6] + u[6..] == u[4..];
    HexBytesOfConcat(u[..4], u[4..]);
    assert u[..4] + u[4..] == u;
  }

  lemma UuidTextShape(u: Uuid)
    ensures |UuidToText(u)| == CODE_LENGTH && Dashes(UuidToText(u)) == 4
    ensures WithoutDashes(UuidToText(u)) == HexBytes(u)
  {
    GroupsShape(u[..4], u[4..6], u[6..8], u[8..10], u[10..]);
    GroupsOfBytes(u);
  }

  lemma HexIsNotPrefixed(group: seq<U8>, rest: string)
    requires group != []
    ensures !HasHexPrefix(HexBytes(group) + rest)
  {
    HexBytesParse(group);
    var s := HexBytes(group);
    assert (s + rest)[1] == s[1] && s[1] in s;
  }

  /** A UUID code is never taken for a number. */
  lemma UuidTextIsNotNumeric(u: Uuid)
    ensures !HasHexPrefix(UuidToText(u))
  {
    var rest := "-" + (HexBytes(u[4..6]) + "-" + (HexBytes(u[6..8]) + "-" + (HexBytes(u[8..10]) + "-" + HexBytes(u[10..]))));
    assert UuidToText(u) == HexBytes(u[..4]) + rest;
    HexIsNotPrefixed(u[..4], rest);
  }

  // ---------------------------------------------------------------- how a code is read

  function DashPositions(s: string): set<nat> {
    set i | 0 <= i < |s| && s[i] == '-'
  }

  lemma {:induction false} DashesArePositions(s: string)
    ensures Dashes(s) == |DashPositions(s)|
  {
    if s != "" {
      var n := |s| - 1;
      DashesArePositions(s[..n]);
      assert s[..n] + [s[n]] == s;
      DashesOfConcat(s[..n], [s[n]]);
      assert Dashes([s[n]]) == if s[n] == '-' then 1 else 0;
      assert DashPositions(s) == DashPositions(s[..n]) + if s[n] == '-' then {n} else {};
    }
  }

  /**
   After 0x or 0X a code is a 32-bit number or nothing. Otherwise 36 characters with exactly four
   dashes, anywhere, whose other characters parse as bytes are a UUID; and anything else is text, if
   it fits 64 ASCII characters.
   */
  lemma CodeIsRead(code: string)
    ensures var number := |code| >= 2 && code[0] == '0' && (code[1] == 'x' || code[1] == 'X');
            var uuid := |code| == 36 && |set i | 0 <= i < |code| && code[i] == '-'| == 4 && UuidOfText(code).Some?;
            FaultIdFromCode(code) ==
            if number then
              (if FromStrRadix(code[2..], 16, U32_MAX).None? then Err(BadArgument)
               else Ok(Numeric(FromStrRadix(code[2..], 16, U32_MAX).value)))
            else if uuid then Ok(FaultId.Uuid(UuidOfText(code).value))
            else if |code| <= 64 && IsAscii(code) then Ok(Text(code))
            else Err(BadArgument)
  {
    DashesArePositions(code);
    assert DashPositions(code) == set i | 0 <= i < |code| && code[i] == '-';
    assert HasHexPrefix(code) <==> |code| >= 2 && code[0] == '0' && (code[1] == 'x' || code[1] == 'X');
  }

  // ---------------------------------------------------------------- the texts, character by character

  const LOWER_DIGITS := "0123456789abcdef"
  const UPPER_DIGITS := "0123456789ABCDEF"

  lemma HexDigits(d: nat)
    requires d < 16
    ensures DigitChar(d, false) == LOWER_DIGITS[d] && DigitChar(d, true) == UPPER_DIGITS[d]
  {
    assert LOWER_DIGITS[10..] == "abcdef" && UPPER_DIGITS[10..] == "ABCDEF";
  }

  lemma {:induction false} HexByteAt(bytes: seq<U8>, k: nat)
    requires k < |bytes|
    ensures |HexBytes(bytes)| == 2 * |bytes|
    ensures HexBytes(bytes)[2 * k] == LOWER_DIGITS[bytes[k] / 16] && HexBytes(bytes)[2 * k + 1] == LOWER_DIGITS[bytes[k] % 16]
  {
    HexBytesParse(bytes);
    HexByte(bytes[0]);
    var first, rest := Padded(bytes[0], 2, 16, false), HexBytes(bytes[1..]);
    assert HexBytes(bytes) == first + rest;
    if k == 0 {
      ByteDigits(bytes[0]);
    } else {
      HexByteAt(bytes[1..], k - 1);
      assert (first + rest)[2 * k] == rest[2 * (k - 1)] && (first + rest)[2 * k + 1] == rest[2 * (k - 1) + 1];
    }
  }

  lemma ByteDigits(b: U8)
    ensures Padded(b, 2, 16, false) == [LOWER_DIGITS[b / 16], LOWER_DIGITS[b % 16]]
  {
    assert Pow(16, 2) == 256;
    PaddedIsFixed(b, 2, 16, false);
    HexDigits(b / 16);
    HexDigits(b % 16);
    assert Fixed(b, 2, 16, false) == [DigitChar(b / 16 % 16, false), DigitChar(b % 16, false)];
  }

  /** How many dashes stand before byte `k`. */
  function DashesBefore(k: nat): nat {
    if k < 4 then 0 else if k < 6 then 1 else if k < 8 then 2 else if k < 10 then 3 else 4
  }

  /** Two lower-case digits per byte, and dashes at the columns of the 8-4-4-4-12 form. */
  lemma UuidTextColumns(u: Uuid, k: nat)
    requires k < 16
    ensures var text := UuidToText(u);
            && |text| == 36 && text[8] == '-' && text[13] == '-' && text[18] == '-' && text[23] == '-'
            && var column := 2 * k + DashesBefore(k);
               text[column] == LOWER_DIGITS[u[k] / 16] && text[column + 1] == LOWER_DIGITS[u[k] % 16]
  {
    var text := UuidToText(u);
    UuidTextShape(u);
    UuidGroups(u);
    if k < 4 {
      InGroup(text, 0, u[..4], k);
    } else if k < 6 {
      InGroup(text, 9, u[4..6], k - 4);
    } else if k < 8 {
      InGroup(text, 14, u[6..8], k - 6);
    } else if k < 10 {
      InGroup(text, 19, u[8..10], k - 8);
    } else {
      InGroup(text, 24, u[10..], k - 10);
    }
  }

  lemma InGroup(text: string, from: nat, group: seq<U8>, j: nat)
    requires j < |group| && from + 2 * |group| <= |text| && text[from..from + 2 * |group|] == HexBytes(group)
    ensures text[from + 2 * j] == LOWER_DIGITS[group[j] / 16] && text[from + 2 * j + 1] == LOWER_DIGITS[group[j] % 16]
  {
    HexByteAt(group, j);
    var part := text[from..from + 2 * |group|];
    assert text[from + 2 * j] == part[2 * j] && text[from + 2 * j + 1] == part[2 * j + 1];
  }

  lemma UuidGroups(u: Uuid)
    requires |UuidToText(u)| == 36
    ensures var text := UuidToText(u);
            && text[0..8] == HexBytes(u[..4]) && text[8] == '-' && text[9..13] == HexBytes(u[4..6]) && text[13] == '-'
            && text[14..18] == HexBytes(u[6..8]) && text[18] == '-' && text[19..23] == HexBytes(u[8..10])
            && text[23] == '-' && text[24..36] == HexBytes(u[10..])
  {
    HexBytesParse(u[..4]);
    HexBytesParse(u[4..6]);
    HexBytesParse(u[6..8]);
    HexBytesParse(u[8..10]);
    HexBytesParse(u[10..]);
    GroupColumns(HexBytes(u[..4]), HexBytes(u[4..6]), HexBytes(u[6..8]), HexBytes(u[8..10]), HexBytes(u[10..]));
  }

  lemma GroupColumns(a: string, b: string, c: string, d: string, e: string)
    requires |a| == 8 && |b| == |c| == |d| == 4 && |e| == 12
    ensures var text := a + "-" + (b + "-" + (c + "-" + (d + "-" + e)));
            && text[0..8] == a && text[8] == '-' && text[9..13] == b && text[13] == '-' && text[14..18] == c
            && text[18] == '-' && text[19..23] == d && text[23] == '-' && |text| == 36 && text[24..36] == e
  {
  }

  /** Upper-case digits after 0x, with no leading zero. */
  lemma NumberText(n: U32)
    ensures var code := FaultIdToCode(Numeric(n));
            && |code| >= 3 && code[..2] == "0x" && Value(code[2..], 16) == Some(n)
            && (code[2] == '0' ==> n == 0 && |code| == 3)
            && forall i :: 2 <= i < |code| ==> code[i] in UPPER_DIGITS
  {
    var digits := Print(n, 16, true);
    assert FaultIdToCode(Numeric(n))[2..] == digits;
    ValueOfPrint(n, 16, true);
    PrintedDigits(n);
  }

  lemma {:induction false} PrintedDigits(n: nat)
    ensures var s := Print(n, 16, true);
            && s != "" && (s[0] == '0' ==> n == 0 && |s| == 1) && forall c :: c in s ==> c in UPPER_DIGITS
  {
    HexDigits(n % 16);
    if n >= 16 {
      PrintedDigits(n / 16);
    }
  }

  // ---------------------------------------------------------------- round trip

  /** Text that a tool would read as something else. */
  predicate TextIsAmbiguous(t: string) {
    HasHexPrefix(t) || ReadsAsUuid(t)
  }

  /**
   Every number and every UUID comes back from its code. A text does exactly when it neither
   starts like a hexadecimal number nor reads as a UUID.
   */
  lemma CodeRoundTrip(id: FaultId)
    ensures FaultIdFromCode(FaultIdToCode(id)) == Ok(id) <==> (id.Text? ==> !TextIsAmbiguous(id.text))
  {
    match id
    case Numeric(n) =>
      FromStrRadixOfPrint(n, 16, true, U32_MAX);
      assert FaultIdToCode(id)[2..] == Print(n, 16, true);
    case Uuid(u) =>
      UuidTextShape(u);
      UuidTextIsNotNumeric(u);
      HexBytesParse(u);
    case Text(t) =>
  }

  /** The identifiers that some code names are exactly those whose own code comes back. */
  lemma CodesReach(id: FaultId)
    ensures (exists code :: FaultIdFromCode(code) == Ok(id)) <==> FaultIdFromCode(FaultIdToCode(id)) == Ok(id)
  {
    CodeRoundTrip(id);
  }

  /** Two identifiers whose codes come back never share a code. */
  lemma CodesAreInjective(a: FaultId, b: FaultId)
    requires FaultIdToCode(a) == FaultIdToCode(b)
    requires a.Text? ==> !TextIsAmbiguous(a.text)
    requires b.Text? ==> !TextIsAmbiguous(b.text)
    ensures a == b
  {
    CodeRoundTrip(a);
    CodeRoundTrip(b);
  }
}
