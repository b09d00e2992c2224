/** Typed storage keys: `n:<decimal>`, `t:<text>`, `u:<32 hex digits>`. */
module StorageKeys {
  import opened Basics
  import opened Digits
  import opened Faults

  datatype StorageError =
    | Serialization(what: string) | Deserialization(what: string) | Backend(what: string) | NotFound

  function HexBytes(bytes: seq<U8>): string {
    if bytes == [] then "" else Padded(bytes[0], 2, 16, false) + HexBytes(bytes[1..])
  }

  function FaultIdToKey(id: FaultId): string {
    match id
    case Numeric(n) => "n:" + Print(n, 10, false)
    case Text(t) => "t:" + t
    case Uuid(u) => "u:" + HexBytes(u)
  }

  /** Two characters per byte; none as soon as a pair does not parse. */
  function ParseHexBytes(hex: string): (r: Option<seq<U8>>)
    requires |hex| % 2 == 0
    ensures r.Some? ==> |r.value| == |hex| / 2
  {
    if hex == "" then Some([])
    else
      var b := FromStrRadix(hex[..2], 16, 255);
      var rest := ParseHexBytes(hex[2..]);
      if b.None? || rest.None? then None else Some([b.value] + rest.value)
  }

  function ToShortString(s: string): Option<ShortString> {
    if |s| <= SHORT_CAPACITY && IsAscii(s) then Some(s) else None
  }

  /** Keys without a known prefix come from older storage and are read as text. */
  function FaultIdFromKey(key: string): Result<FaultId, StorageError> {
    if "n:" <= key then
      var n := FromStrRadix(key[2..], 10, U32_MAX);
      if n.None? then Err(Deserialization("invalid numeric key")) else Ok(Numeric(n.value))
    else if "u:" <= key then
      if |key| != 34 then Err(Deserialization("invalid uuid key length"))
      else
        var bytes := ParseHexBytes(key[2..]);
        if bytes.None? then Err(Deserialization("invalid uuid hex")) else Ok(FaultId.Uuid(bytes.value))
    else
      var text := ToShortString(if "t:" <= key then key[2..] else key);
      if text.None? then Err(Deserialization("fault id key too long")) else Ok(Text(text.value))
  }

  function Prepend(front: seq<U8>, rest: Option<seq<U8>>): Option<seq<U8>> {
    if rest.None? then None else Some(front + rest.value)
  }

  /** The byte-filling loop shared by the key and the code parser. */
  method FillBytes(hex: string) returns (bytes: Option<seq<U8>>)
    requires |hex| == 32
    ensures bytes == ParseHexBytes(hex)
  {
    var filled := new U8[16](_ => 0);
    assert hex[0..] == hex;
    assert filled[..0] == [];
    PrependNothing(ParseHexBytes(hex));
    for i := 0 to 16
      invariant ParseHexBytes(hex) == Prepend(filled[..i], ParseHexBytes(hex[2 * i..]))
    {
      var byte := FromStrRadix(hex[i * 2..i * 2 + 2], 16, 255);
      ghost var rest := hex[2 * i..];
      assert rest[..2] == hex[i * 2..i * 2 + 2] && rest[2..] == hex[2 * (i + 1)..];
      if byte.None? {
        return None;
      }
      ghost var before := filled[..i];
      filled[i] := byte.value;
      assert filled[..i + 1] == before + [byte.value];
      PrependSnoc(before, byte.value, ParseHexBytes(rest[2..]));
    }
    assert hex[32..] == "";
    assert filled[..16] == filled[..];
    assert filled[..] + [] == filled[..];
    bytes := Some(filled[..]);
  }

  lemma PrependNothing(rest: Option<seq<U8>>)
    ensures Prepend([], rest) == rest
  {
    if rest.Some? {
      assert [] + rest.value == rest.value;
    }
  }

  lemma PrependSnoc(front: seq<U8>, b: U8, rest: Option<seq<U8>>)
    ensures Prepend(front + [b], rest) == Prepend(front, Prepend([b], rest))
  {
    if rest.Some? {
      assert front + [b] + rest.value == front + ([b] + rest.value);
    }
  }

  // ---------------------------------------------------------------- round trip

  lemma HexByte(b: U8)
    ensures |Padded(b, 2, 16, false)| == 2
    ensures FromStrRadix(Padded(b, 2, 16, false), 16, 255) == Some(b)
    ensures forall c :: c in Padded(b, 2, 16, false) ==> DigitValue(c, 16).Some?
  {
    assert Pow(16, 2) == 256;
    PaddedIsFixed(b, 2, 16, false);
    ValueOfFixed(b, 2, 16, false);
    DigitValueOfChar(b / 16 % 16, false, 16);
    DigitValueOfChar(b % 16, false, 16);
    assert Fixed(b, 2, 16, false) == [DigitChar(b / 16 % 16, false), DigitChar(b % 16, false)];
  }

  lemma {:induction false} HexBytesParse(bytes: seq<U8>)
    ensures |HexBytes(bytes)| == 2 * |bytes|
    ensures ParseHexBytes(HexBytes(bytes)) == Some(bytes)
    ensures forall c :: c in HexBytes(bytes) ==> DigitValue(c, 16).Some?
  {
    if bytes != [] {
      HexByte(bytes[0]);
      HexBytesParse(bytes[1..]);
      var hex := HexBytes(bytes);
      assert hex[..2] == Padded(bytes[0], 2, 16, false) && hex[2..] == HexBytes(bytes[1..]);
      assert [bytes[0]] + bytes[1..] == bytes;
    }
  }

  /** Decoding undoes encoding for every identifier, whatever its kind. */
  lemma KeyRoundTrip(id: FaultId)
    ensures FaultIdFromKey(FaultIdToKey(id)) == Ok(id)
  {
    var key := FaultIdToKey(id);
    match id
    case Numeric(n) =>
      FromStrRadixOfPrint(n, 10, false, U32_MAX);
      assert key[2..] == Print(n, 10, false);
    case Text(t) =>
      assert key[0] == 't';
      assert key[2..] == t;
    case Uuid(u) =>
      HexBytesParse(u);
      assert key[0] == 'u';
      assert key[2..] == HexBytes(u);
  }

  /** The written form: a tag, then the decimal number, the text itself, or two digits for each byte. */
  lemma KeyText(id: FaultId)
    ensures var key := FaultIdToKey(id);
            && |key| >= 2 && key[1] == ':'
            && (id.Numeric? ==> key[0] == 'n' && Value(key[2..], 10) == Some(id.n) && (|key| > 3 ==> key[2] != '0'))
            && (id.Text? ==> key[0] == 't' && key[2..] == id.text)
            && (id.Uuid? ==> key[0] == 'u' && |key| == 34 && ParseHexBytes(key[2..]) == Some(id.bytes))
  {
    var key := FaultIdToKey(id);
    match id
    case Numeric(n) =>
      assert key[2..] == Print(n, 10, false);
      ValueOfPrint(n, 10, false);
      NoLeadingZero(n);
    case Text(t) =>
      assert key[2..] == t;
    case Uuid(u) =>
      HexBytesParse(u);
      assert key[2..] == HexBytes(u);
  }

  lemma {:induction false} NoLeadingZero(n: nat)
    ensures var s := Print(n, 10, false); s != "" && (|s| > 1 ==> s[0] != '0')
  {
    if n >= 10 {
      NoLeadingZero(n / 10);
    }
  }

  /** A key without a known tag, as older stores have them, is read as text. */
  lemma OlderKeyReads(key: string)
    requires |key| <= 64 && IsAscii(key)
    requires |key| < 2 || key[1] != ':' || (key[0] != 'n' && key[0] != 't' && key[0] != 'u')
    ensures FaultIdFromKey(key) == Ok(Text(key))
  {
  }

  /** Different identifiers never share a key. */
  lemma KeysAreInjective(a: FaultId, b: FaultId)
    requires FaultIdToKey(a) == FaultIdToKey(b)
    ensures a == b
  {
    KeyRoundTrip(a);
    KeyRoundTrip(b);
  }
}
