/**
 The text form of a log record: `AKVWAL1 <sequence> <type> <key_hex> <value_hex>` and a
 line feed (src/wal/wal_record_codec.cpp). The functions say what a line means; the
 methods at the end are the program's loops, proved to compute them.
 */
module WalCodec {
  import opened ByteStrings
  import opened Decimal
  import opened Core
  import opened WalRecords

  /** AKVWAL1 */
  const VERSION: Bytes := [65, 75, 86, 87, 65, 76, 49]

  // ----- Hexadecimal fields -----

  function ToHex(v: Byte): Byte
  {
    var digit := v % 16;
    if digit < 10 then 48 + digit else 87 + digit
  }

  predicate IsHexDigit(b: Byte)
  {
    48 <= b <= 57 || 97 <= b <= 102 || 65 <= b <= 70
  }

  function HexValue(b: Byte): (v: Byte)
    requires IsHexDigit(b)
    ensures v < 16
  {
    if b <= 57 then b - 48 else if b >= 97 then b - 87 else b - 55
  }

  ghost predicate AllHex(s: Bytes)
  {
    forall i :: 0 <= i < |s| ==> IsHexDigit(s[i])
  }

  /** Two digits a byte, high half first. */
  ghost function HexOf(s: Bytes): (t: Bytes)
    ensures |t| == 2 * |s|
  {
    seq(2 * |s|, i requires 0 <= i < 2 * |s| => ToHex(if i % 2 == 0 then s[i / 2] / 16 else s[i / 2]))
  }

  ghost function BytesOfHex(t: Bytes): (s: Bytes)
    requires |t| % 2 == 0 && AllHex(t)
    ensures |s| == |t| / 2
  {
    seq(|t| / 2, i requires 0 <= i < |t| / 2 => HexValue(t[2 * i]) * 16 + HexValue(t[2 * i + 1]))
  }

  ghost function EncodedField(s: Bytes): Bytes
  {
    if s == [] then [DASH] else HexOf(s)
  }

  ghost function DecodedField(t: Bytes): Result<Bytes>
  {
    if t == [DASH] then Success([])
    else if t == [] then Failure(InvalidArgumentError("hex field must not be empty"))
    else if |t| % 2 != 0 then Failure(InvalidArgumentError("hex field has odd length"))
    else if !AllHex(t) then Failure(InvalidArgumentError("hex field contains invalid digit"))
    else Success(BytesOfHex(t))
  }

  /** The lower-case form of hexadecimal text. */
  ghost function Lower(t: Bytes): Bytes
  {
    seq(|t|, i requires 0 <= i < |t| => if 65 <= t[i] <= 70 then t[i] + 32 else t[i])
  }

  lemma HexPair(b: Byte)
    ensures IsHexDigit(ToHex(b)) && IsHexDigit(ToHex(b / 16))
    ensures HexValue(ToHex(b / 16)) * 16 + HexValue(ToHex(b)) == b
  {
  }

  lemma HexOfIsHex(s: Bytes)
    ensures AllHex(HexOf(s))
  {
  }

  /** A field cut short decodes exactly when whole bytes remain, and then to a prefix. */
  lemma {:induction false} DecodedFieldOfPrefix(s: Bytes, n: nat)
    requires 0 < n <= 2 * |s|
    ensures n % 2 == 0 ==> DecodedField(HexOf(s)[..n]) == Success(s[..n / 2])
    ensures n % 2 != 0 ==> DecodedField(HexOf(s)[..n]).Failure?
  {
    HexOfIsHex(s);
    var t := HexOf(s)[..n];
    assert IsHexDigit(t[0]);
    assert t != [DASH];
    if n % 2 == 0 {
      assert AllHex(t);
      forall i | 0 <= i < n / 2
        ensures BytesOfHex(t)[i] == s[i]
      {
        HexPair(s[i]);
        assert t[2 * i] == ToHex(s[i] / 16) && t[2 * i + 1] == ToHex(s[i]);
      }
      assert BytesOfHex(t) == s[..n / 2];
    }
  }

  lemma {:induction false} DecodedFieldOfEncoded(s: Bytes)
    ensures DecodedField(EncodedField(s)) == Success(s)
  {
    if s != [] {
      DecodedFieldOfPrefix(s, 2 * |s|);
      assert HexOf(s)[..2 * |s|] == HexOf(s) && s[..|s|] == s;
    }
  }

  lemma HexDigitRestored(b: Byte, c: Byte)
    requires IsHexDigit(b) && IsHexDigit(c)
    ensures ToHex((HexValue(b) * 16 + HexValue(c)) / 16) == if 65 <= b <= 70 then b + 32 else b
    ensures ToHex(HexValue(b) * 16 + HexValue(c)) == if 65 <= c <= 70 then c + 32 else c
  {
  }

  /** Encoding what a field decodes to lowers its letters and changes nothing else. */
  lemma {:induction false} EncodedFieldOfDecoded(t: Bytes)
    requires DecodedField(t).Success?
    ensures EncodedField(DecodedField(t).value) == Lower(t)
  {
    if t != [DASH] {
      var s := BytesOfHex(t);
      forall i | 0 <= i < |t|
        ensures HexOf(s)[i] == Lower(t)[i]
      {
        var k := i / 2;
        HexDigitRestored(t[2 * k], t[2 * k + 1]);
        assert i == 2 * k || i == 2 * k + 1;
      }
      assert HexOf(s) == Lower(t);
    }
  }

  // ----- Record lines -----

  ghost function Fields(record: WalRecord): seq<Bytes>
  {
    [
      VERSION,
      Digits(record.sequenceNumber as int),
      TypeName(record.kind),
      EncodedField(record.key),
      EncodedField(record.value)
    ]
  }

  /** The line of a record, without its line feed. */
  ghost function RecordLine(record: WalRecord): Bytes
  {
    Join(Fields(record), SPACE)
  }

  ghost function Encoded(record: WalRecord): Bytes
  {
    RecordLine(record) + [LF]
  }

  function StripLineEnding(value: Bytes): Bytes
  {
    var v := if value != [] && value[|value| - 1] == LF then value[..|value| - 1] else value;
    if v != [] && v[|v| - 1] == CR then v[..|v| - 1] else v
  }

  function SequenceNumberOf(number: Number): Result<Uint64>
  {
    match number
    case Value(n) => Success(n)
    case Empty => Failure(InvalidArgumentError("WAL sequence number is empty"))
    case NotNumeric => Failure(InvalidArgumentError("WAL sequence number is not numeric"))
    case TooLarge => Failure(InvalidArgumentError("WAL sequence number is too large"))
  }

  function ParseRecordType(text: Bytes): Result<RecordType>
  {
    if text == TypeName(Set) then Success(Set)
    else if text == TypeName(Del) then Success(Del)
    else Failure(InvalidArgumentError("unknown WAL record type"))
  }

  ghost function RecordOfParts(parts: seq<Bytes>): (r: Result<WalRecord>)
    requires |parts| == 5
    ensures r.Success? ==> Valid(r.value)
  {
    if parts[0] != VERSION then Failure(InvalidArgumentError("unsupported WAL record format version")) else
    var number := SequenceNumberOf(Parsed(parts[1]));
    if number.Failure? then Failure(number.error) else
    var kind := ParseRecordType(parts[2]);
    if kind.Failure? then Failure(kind.error) else
    var key := DecodedField(parts[3]);
    if key.Failure? then Failure(key.error) else
    var value := DecodedField(parts[4]);
    if value.Failure? then Failure(value.error) else
    var record := WalRecord(number.value, kind.value, key.value, value.value);
    if Validate(record).Ok? then Success(record) else Failure(Validate(record))
  }

  /** What a line of the log means. */
  ghost function Decoded(line: Bytes): (r: Result<WalRecord>)
    ensures r.Success? ==> Valid(r.value)
  {
    var s := StripLineEnding(line);
    if s == [] then Failure(InvalidArgumentError("serialized WAL record is empty")) else
    var parts := Split(s, SPACE);
    if |parts| != 5 || [] in parts then
      Failure(InvalidArgumentError("serialized WAL record must contain 5 fields"))
    else
      RecordOfParts(parts)
  }

  // ----- The program's loops -----

  method HexEncode(value: Bytes) returns (out: Bytes)
    ensures out == HexOf(value)
  {
    out := [];
    for i := 0 to |value|
      invariant out == HexOf(value)[..2 * i]
    {
      out := out + [ToHex(value[i] / 16)];
      out := out + [ToHex(value[i])];
    }
  }

  method HexDecode(value: Bytes) returns (r: Result<Bytes>)
    ensures r == DecodedField(value)
  {
    if value == [DASH] {
      return Success([]);
    }
    if value == [] {
      return Failure(InvalidArgumentError("hex field must not be empty"));
    }
    if |value| % 2 != 0 {
      return Failure(InvalidArgumentError("hex field has odd length"));
    }
    var out: Bytes := [];
    var index := 0;
    while index < |value|
      invariant index <= |value| && index % 2 == 0
      invariant AllHex(value[..index])
      invariant out == BytesOfHex(value[..index])
    {
      if !IsHexDigit(value[index]) || !IsHexDigit(value[index + 1]) {
        return Failure(InvalidArgumentError("hex field contains invalid digit"));
      }
      out := out + [HexValue(value[index]) * 16 + HexValue(value[index + 1])];
      index := index + 2;
    }
    assert value[..index] == value;
    return Success(out);
  }

  lemma NextPart(value: Bytes, start: nat, separator: nat)
    requires start <= separator < |value| && separator == start + Find(value[start..], SPACE)
    ensures Split(value[start..], SPACE) == [value[start..separator]] + Split(value[separator + 1..], SPACE)
  {
    hide Find;
    assert value[start..][separator - start + 1..] == value[separator + 1..];
    assert value[start..][..separator - start] == value[start..separator];
  }

  lemma LastPart(value: Bytes)
    requires Find(value, SPACE) == |value|
    ensures Split(value, SPACE) == [value]
  {
    hide Find;
  }

  method SplitBySingleSpaces(value: Bytes) returns (parts: seq<Bytes>)
    ensures parts == Split(value, SPACE)
  {
    parts := [];
    var start := 0;
    hide Split, Find;
    assert value[0..] == value && [] + Split(value, SPACE) == Split(value, SPACE);
    while start <= |value|
      invariant start <= |value|
      invariant Split(value, SPACE) == parts + Split(value[start..], SPACE)
      decreases |value| - start
    {
      var separator := start + Find(value[start..], SPACE);
      if separator == |value| {
        LastPart(value[start..]);
        parts := parts + [value[start..]];
        break;
      }
      NextPart(value, start, separator);
      ConcatAssoc(parts, [value[start..separator]], Split(value[separator + 1..], SPACE));
      parts := parts + [value[start..separator]];
      start := separator + 1;
    }
  }

  method HasEmptyPart(parts: seq<Bytes>) returns (empty: bool)
    ensures empty <==> [] in parts
  {
    for i := 0 to |parts|
      invariant [] !in parts[..i]
    {
      if parts[i] == [] {
        return true;
      }
    }
    return false;
  }

  method EncodeWalField(value: Bytes) returns (out: Bytes)
    ensures out == EncodedField(value)
  {
    if value == [] {
      return [DASH];
    }
    out := HexEncode(value);
  }

  lemma FiveFields(a: Bytes, b: Bytes, c: Bytes, d: Bytes, e: Bytes)
    ensures Join([a, b, c, d, e], SPACE)
      == a + [SPACE] + b + [SPACE] + c + [SPACE] + d + [SPACE] + e
  {
    assert [a, b, c, d, e][1..] == [b, c, d, e];
    assert [b, c, d, e][1..] == [c, d, e];
    assert [c, d, e][1..] == [d, e];
    assert [d, e][1..] == [e];
    calc {
      Join([a, b, c, d, e], SPACE);
      a + [SPACE] + Join([b, c, d, e], SPACE);
      a + [SPACE] + (b + [SPACE] + Join([c, d, e], SPACE));
      a + [SPACE] + (b + [SPACE] + (c + [SPACE] + Join([d, e], SPACE)));
      a + [SPACE] + (b + [SPACE] + (c + [SPACE] + (d + [SPACE] + e)));
    }
  }

  method Serialize(record: WalRecord) returns (r: Result<Bytes>)
    ensures r == if Valid(record) then Success(Encoded(record)) else Failure(Validate(record))
  {
    var validation := Validate(record);
    if validation.Error? {
      return Failure(validation);
    }
    var out := VERSION;
    out := out + [SPACE];
    out := out + Digits(record.sequenceNumber as int);
    out := out + [SPACE];
    out := out + TypeName(record.kind);
    out := out + [SPACE];
    var key := EncodeWalField(record.key);
    out := out + key;
    out := out + [SPACE];
    var value := EncodeWalField(record.value);
    out := out + value;
    FiveFields(VERSION, Digits(record.sequenceNumber as int), TypeName(record.kind), key, value);
    out := out + [LF];
    return Success(out);
  }

  method Deserialize(serialized: Bytes) returns (r: Result<WalRecord>)
    ensures r == Decoded(serialized)
  {
    var line := StripLineEnding(serialized);
    if line == [] {
      return Failure(InvalidArgumentError("serialized WAL record is empty"));
    }
    var parts := SplitBySingleSpaces(line);
    var empty := HasEmptyPart(parts);
    if |parts| != 5 || empty {
      return Failure(InvalidArgumentError("serialized WAL record must contain 5 fields"));
    }
    if parts[0] != VERSION {
      return Failure(InvalidArgumentError("unsupported WAL record format version"));
    }
    var parsed := ParseUnsigned(parts[1]);
    var number := SequenceNumberOf(parsed);
    if number.Failure? {
      return Failure(number.error);
    }
    var kind := ParseRecordType(parts[2]);
    if kind.Failure? {
      return Failure(kind.error);
    }
    var key := HexDecode(parts[3]);
    if key.Failure? {
      return Failure(key.error);
    }
    var value := HexDecode(parts[4]);
    if value.Failure? {
      return Failure(value.error);
    }
    var record := WalRecord(number.value, kind.value, key.value, value.value);
    var validation := Validate(record);
    if validation.Error? {
      return Failure(validation);
    }
    return Success(record);
  }
}
