/** What the codec promises: round trip, torn records, and the normal form of accepted lines. */
module WalCodecProofs {
  import opened ByteStrings
  import opened Decimal
  import opened Core
  import opened WalRecords
  import opened WalCodec

  // ----- Bytes that occur in a record line -----

  /** Neither a space nor a line ending. */
  ghost predicate Printable(s: Bytes)
  {
    forall i :: 0 <= i < |s| ==> s[i] > 32
  }

  lemma FieldsPrintable(record: WalRecord)
    ensures forall i :: 0 <= i < 5 ==> Printable(Fields(record)[i]) && Fields(record)[i] != []
    ensures AllFreeOf(Fields(record), SPACE)
  {
    DigitsDenote(record.sequenceNumber as int);
    HexOfIsHex(record.key);
    HexOfIsHex(record.value);
  }

  lemma {:induction false} JoinBytes(parts: seq<Bytes>)
    requires forall i :: 0 <= i < |parts| ==> Printable(parts[i])
    ensures forall k :: 0 <= k < |Join(parts, SPACE)| ==> Join(parts, SPACE)[k] >= 32
  {
    if |parts| > 1 {
      JoinBytes(parts[1..]);
    }
  }

  lemma JoinLast(front: seq<Bytes>, last: Bytes)
    requires front != []
    ensures Join(front + [last], SPACE) == Join(front, SPACE) + [SPACE] + last
  {
    JoinAppend(front, [last], SPACE);
  }

  /** The line up to its value field, with the separating space. */
  ghost function Header(record: WalRecord): Bytes
  {
    Join(Fields(record)[..4], SPACE) + [SPACE]
  }

  lemma LineIsHeaderThenValue(record: WalRecord)
    ensures RecordLine(record) == Header(record) + EncodedField(record.value)
  {
    var f := Fields(record);
    JoinLast(f[..4], f[4]);
    assert f == f[..4] + [f[4]];
  }

  /** No line feed, no carriage return: a record line is one line. */
  lemma LineBytes(record: WalRecord)
    ensures forall k :: 0 <= k < |RecordLine(record)| ==> RecordLine(record)[k] >= 32
    ensures FreeOf(RecordLine(record), LF)
    ensures RecordLine(record) != []
  {
    FieldsPrintable(record);
    JoinBytes(Fields(record));
    LineIsHeaderThenValue(record);
  }

  lemma StripPlain(line: Bytes)
    requires forall k :: 0 <= k < |line| ==> line[k] >= 32
    ensures StripLineEnding(line) == line
    ensures StripLineEnding(line + [LF]) == line
    ensures StripLineEnding(line + CRLF) == line
    ensures StripLineEnding(line + [CR]) == line
  {
    assert (line + [LF])[..|line|] == line;
    assert (line + CRLF)[..|line| + 1] == line + [CR];
    assert (line + [CR])[..|line|] == line;
  }

  // ----- Round trip -----

  /** Reading back the fields of a valid record, with some other text in the value field. */
  lemma RecordOfFields(record: WalRecord, text: Bytes)
    requires Valid(record)
    ensures
      var r := RecordOfParts(Fields(record)[..4] + [text]);
      var value := DecodedField(text);
      && (r.Success? <==> value.Success? && (record.kind.Set? <==> value.value != []))
      && (r.Success? ==> r.value == record.(value := value.value))
  {
    ParsedOfDigits(record.sequenceNumber);
    DecodedFieldOfEncoded(record.key);
    hide Validate, Digits, Parsed, DecodedField, EncodedField;
  }

  lemma DecodedOfJoin(parts: seq<Bytes>, line: Bytes)
    requires |parts| == 5 && AllFreeOf(parts, SPACE)
    requires StripLineEnding(line) == Join(parts, SPACE)
    ensures [] !in parts ==> Decoded(line) == RecordOfParts(parts)
    ensures [] in parts ==> Decoded(line).Failure?
  {
    SplitOfJoin(parts, SPACE);
    JoinAppend(parts[..1], parts[1..], SPACE);
    assert parts == parts[..1] + parts[1..];
    assert StripLineEnding(line) != [];
  }

  lemma DecodedOfLine(record: WalRecord, line: Bytes)
    requires Valid(record) && StripLineEnding(line) == RecordLine(record)
    ensures Decoded(line) == Success(record)
  {
    FieldsPrintable(record);
    var parts := Fields(record);
    RecordOfFields(record, parts[4]);
    DecodedFieldOfEncoded(record.value);
    assert parts == parts[..4] + [parts[4]];
    assert [] !in parts;
    hide RecordOfParts, Decoded, StripLineEnding;
    DecodedOfJoin(parts, line);
  }

  /** Every valid record is read back exactly, whatever line ending follows it. */
  lemma {:induction false} RoundTrip(record: WalRecord)
    requires Valid(record)
    ensures Decoded(Encoded(record)) == Success(record)
    ensures Decoded(RecordLine(record)) == Success(record)
    ensures Decoded(RecordLine(record) + [CR]) == Success(record)
  {
    LineBytes(record);
    StripPlain(RecordLine(record));
    hide Decoded, RecordLine, StripLineEnding;
    DecodedOfLine(record, Encoded(record));
    DecodedOfLine(record, RecordLine(record));
    DecodedOfLine(record, RecordLine(record) + [CR]);
  }

  /** No two valid records share a line, and the only line feed is the last byte. */
  lemma {:induction false} EncodedInjective(a: WalRecord, b: WalRecord)
    requires Valid(a) && Valid(b)
    ensures Encoded(a) == Encoded(b) ==> a == b
    ensures Find(Encoded(a), LF) == |Encoded(a)| - 1
  {
    RoundTrip(a);
    RoundTrip(b);
    LineBytes(a);
    assert Encoded(a)[|Encoded(a)| - 1] == LF;
    assert forall k :: 0 <= k < |RecordLine(a)| ==> Encoded(a)[k] == RecordLine(a)[k];
  }

  // ----- Torn records -----

  /** What is left when a write of `record` stops after `n` bytes. */
  ghost function Torn(record: WalRecord, n: nat): Bytes
    requires n <= |Encoded(record)|
  {
    Encoded(record)[..n]
  }

  /** Whole bytes of the value that reached the file. */
  ghost function ValueCut(record: WalRecord, n: nat): int
  {
    (n - |Header(record)|) / 2
  }

  /** The cut falls inside the value field of a Set, on a byte boundary, after at least one byte. */
  ghost predicate CutInsideValue(record: WalRecord, n: nat)
  {
    && record.kind.Set?
    && |Header(record)| < n < |RecordLine(record)|
    && (n - |Header(record)|) % 2 == 0
  }

  lemma TornIsPlain(record: WalRecord, n: nat)
    requires n <= |RecordLine(record)|
    ensures n < |Encoded(record)| && Torn(record, n) == RecordLine(record)[..n]
    ensures FreeOf(Torn(record, n), LF)
    ensures StripLineEnding(Torn(record, n)) == Torn(record, n)
  {
    LineBytes(record);
    hide RecordLine;
    StripPlain(RecordLine(record)[..n]);
  }

  lemma TornBeforeValue(record: WalRecord, n: nat)
    requires n <= |Header(record)|
    ensures n < |Encoded(record)| && Decoded(Torn(record, n)).Failure?
  {
    LineIsHeaderThenValue(record);
    TornIsPlain(record, n);
    FieldsPrintable(record);
    var p := Torn(record, n);
    hide RecordOfParts, Split, Join, Fields, EncodedField, RecordLine, StripLineEnding;
    if n < |Header(record)| {
      FewParts(Fields(record)[..4], p);
    } else {
      EmptyLastPart(Fields(record)[..4], p);
    }
  }

  /** A line cut inside its fourth part or before has too few parts. */
  lemma FewParts(four: seq<Bytes>, line: Bytes)
    requires |four| == 4 && AllFreeOf(four, SPACE)
    requires StripLineEnding(line) == line && line <= Join(four, SPACE)
    ensures Decoded(line).Failure?
  {
    hide RecordOfParts, Split, StripLineEnding, Join;
    SplitOfJoin(four, SPACE);
    SplitOfPrefix(Join(four, SPACE), |line|, SPACE);
    assert line == Join(four, SPACE)[..|line|];
  }

  /** A line cut just after the fourth part has an empty fifth part. */
  lemma EmptyLastPart(four: seq<Bytes>, line: Bytes)
    requires |four| == 4 && AllFreeOf(four, SPACE)
    requires StripLineEnding(line) == line && line == Join(four, SPACE) + [SPACE]
    ensures Decoded(line).Failure?
  {
    hide RecordOfParts, Split, StripLineEnding;
    JoinLast(four, []);
    hide Join;
    assert Join(four, SPACE) + [SPACE] + [] == line;
    var parts := four + [[]];
    assert parts[4] == [];
    DecodedOfJoin(parts, line);
  }

  lemma DecodedWithValue(record: WalRecord, text: Bytes, line: Bytes)
    requires text != [] && FreeOf(text, SPACE)
    requires StripLineEnding(line) == Header(record) + text
    ensures Decoded(line) == RecordOfParts(Fields(record)[..4] + [text])
  {
    FieldsPrintable(record);
    var four := Fields(record)[..4];
    var parts := four + [text];
    JoinLast(four, text);
    assert forall i :: 0 <= i < 5 ==> parts[i] == if i < 4 then Fields(record)[i] else text;
    hide RecordOfParts, Fields, StripLineEnding, Decoded;
    DecodedOfJoin(parts, line);
  }

  lemma TornInValue(record: WalRecord, n: nat)
    requires Valid(record) && |Header(record)| < n <= |RecordLine(record)|
    ensures n - |Header(record)| <= |EncodedField(record.value)|
    ensures Decoded(Torn(record, n))
      == RecordOfParts(Fields(record)[..4] + [EncodedField(record.value)[..n - |Header(record)|]])
  {
    LineIsHeaderThenValue(record);
    TornIsPlain(record, n);
    FieldsPrintable(record);
    var field := EncodedField(record.value);
    TakeOfAppend(Header(record), field, n);
    assert Fields(record)[4] == field;
    hide RecordOfParts, EncodedField, RecordLine, StripLineEnding, Decoded;
    DecodedWithValue(record, field[..n - |Header(record)|], Torn(record, n));
  }

  lemma TornSetValue(record: WalRecord, n: nat)
    requires Valid(record) && |Header(record)| < n < |RecordLine(record)|
    ensures record.kind.Set?
    ensures 0 < n - |Header(record)| < 2 * |record.value|
    ensures Decoded(Torn(record, n))
      == RecordOfParts(Fields(record)[..4] + [HexOf(record.value)[..n - |Header(record)|]])
  {
    TornInValue(record, n);
    hide Decoded, Fields, RecordOfParts;
    LineIsHeaderThenValue(record);
  }

  lemma RecordWithCutValue(record: WalRecord, m: nat)
    requires Valid(record) && record.kind.Set? && 0 < m < 2 * |record.value|
    ensures
      var r := RecordOfParts(Fields(record)[..4] + [HexOf(record.value)[..m]]);
      if m % 2 == 0 then r == Success(record.(value := record.value[..m / 2])) else r.Failure?
  {
    hide RecordOfParts, Fields, DecodedField, HexOf;
    RecordOfFields(record, HexOf(record.value)[..m]);
    DecodedFieldOfPrefix(record.value, m);
  }

  lemma TornInside(record: WalRecord, n: nat)
    requires Valid(record) && |Header(record)| < n < |RecordLine(record)|
    ensures n < |Encoded(record)|
    ensures Decoded(Torn(record, n)).Success? <==> CutInsideValue(record, n)
    ensures CutInsideValue(record, n) ==>
      && 0 < ValueCut(record, n) < |record.value|
      && Decoded(Torn(record, n)) == Success(record.(value := record.value[..ValueCut(record, n)]))
  {
    hide Valid, Torn, RecordOfParts, Fields, Decoded, Header, HexOf, RecordLine, Encoded;
    TornIsPlain(record, n);
    TornSetValue(record, n);
    RecordWithCutValue(record, n - |Header(record)|);
  }

  /**
   A torn line is accepted in exactly two cases: only the line feed is missing, or a Set was cut inside its
   value after whole bytes. Sequence number, type and key then survive, and the value is a nonempty prefix.
   */
  lemma {:induction false} TornRecord(record: WalRecord, n: nat)
    requires Valid(record) && n < |Encoded(record)|
    ensures Decoded(Torn(record, n)).Success? <==> n == |RecordLine(record)| || CutInsideValue(record, n)
    ensures n == |RecordLine(record)| ==> Decoded(Torn(record, n)) == Success(record)
    ensures CutInsideValue(record, n) ==>
      && 0 < ValueCut(record, n) < |record.value|
      && Decoded(Torn(record, n)) == Success(record.(value := record.value[..ValueCut(record, n)]))
  {
    if n <= |Header(record)| {
      LineIsHeaderThenValue(record);
      hide Decoded, Header, RecordLine;
      TornBeforeValue(record, n);
    } else if n < |RecordLine(record)| {
      hide Decoded, Header, RecordLine;
      TornInside(record, n);
    } else {
      hide Decoded, Header, RecordLine;
      RoundTrip(record);
      assert Torn(record, n) == RecordLine(record);
    }
  }

  // ----- Normal form -----

  /** The lines the decoder accepts, spelled out. */
  ghost predicate Acceptable(line: Bytes)
  {
    var parts := Split(StripLineEnding(line), SPACE);
    && |parts| == 5
    && parts[0] == VERSION
    && AllDigits(parts[1]) && 0 < DecimalValue(parts[1]) <= UINT64_MAX
    && (parts[2] == TypeName(Set) || parts[2] == TypeName(Del))
    && parts[3] != [] && |parts[3]| % 2 == 0 && AllHex(parts[3])
    && (if parts[2] == TypeName(Set) then parts[4] != [] && |parts[4]| % 2 == 0 && AllHex(parts[4])
        else parts[4] == [DASH])
  }

  /** An accepted line in canonical spelling: no leading zeros, lower-case digits, one line feed. */
  ghost function Canonical(line: Bytes): Bytes
    requires Acceptable(line)
  {
    var parts := Split(StripLineEnding(line), SPACE);
    Join([parts[0], StripZeros(parts[1]), parts[2], Lower(parts[3]), Lower(parts[4])], SPACE) + [LF]
  }

  lemma {:induction false} AcceptedExactly(line: Bytes)
    ensures Decoded(line).Success? <==> Acceptable(line)
    ensures Decoded(line).Success? ==> Valid(Decoded(line).value)
  {
    var parts := Split(StripLineEnding(line), SPACE);
    if |parts| == 5 {
      ParsedExact(parts[1]);
      DashIsNoHex(parts[3]);
      DashIsNoHex(parts[4]);
      assert [] in parts ==> exists i :: 0 <= i < 5 && parts[i] == [];
    }
    hide Validate, DecodedField, Parsed, AllHex;
  }

  lemma DashIsNoHex(t: Bytes)
    ensures t == [DASH] ==> !AllHex(t) && DecodedField(t) == Success([])
    ensures t != [DASH] ==> (DecodedField(t).Success? <==> t != [] && |t| % 2 == 0 && AllHex(t))
    ensures t != [DASH] && DecodedField(t).Success? ==> DecodedField(t).value != []
  {
    assert t == [DASH] ==> !IsHexDigit(t[0]);
  }

  /** What an accepted line decodes to, part by part. */
  lemma PartsOfDecoded(line: Bytes)
    requires Decoded(line).Success?
    ensures
      var parts, record := Split(StripLineEnding(line), SPACE), Decoded(line).value;
      && |parts| == 5 && parts[0] == VERSION && TypeName(record.kind) == parts[2]
      && AllDigits(parts[1]) && parts[1] != [] && record.sequenceNumber as int == DecimalValue(parts[1])
      && DecodedField(parts[3]) == Success(record.key) && DecodedField(parts[4]) == Success(record.value)
  {
    var parts := Split(StripLineEnding(line), SPACE);
    if |parts| == 5 {
      ParsedExact(parts[1]);
    }
    hide Validate, DecodedField, Parsed, StripLineEnding, Split;
  }

  /** Writing back what a line decodes to is the line in canonical spelling. */
  lemma {:induction false} DecodeThenEncode(line: Bytes)
    requires Decoded(line).Success?
    ensures Acceptable(line) && Encoded(Decoded(line).value) == Canonical(line)
  {
    AcceptedExactly(line);
    PartsOfDecoded(line);
    var parts := Split(StripLineEnding(line), SPACE);
    hide Decoded, StripLineEnding, Split, Parsed, DecodedField, StripZeros, Lower, EncodedField, Join;
    CanonicalDigits(parts[1]);
    EncodedFieldOfDecoded(parts[3]);
    EncodedFieldOfDecoded(parts[4]);
    assert Fields(Decoded(line).value) ==
      [parts[0], StripZeros(parts[1]), parts[2], Lower(parts[3]), Lower(parts[4])];
  }

  /** Two accepted lines mean the same record exactly when their canonical spellings agree. */
  lemma {:induction false} SameRecordIffSameCanonical(a: Bytes, b: Bytes)
    requires Decoded(a).Success? && Decoded(b).Success?
    ensures Acceptable(a) && Acceptable(b)
    ensures Decoded(a) == Decoded(b) <==> Canonical(a) == Canonical(b)
    ensures Decoded(Canonical(a)) == Decoded(a)
  {
    DecodeThenEncode(a);
    DecodeThenEncode(b);
    EncodedInjective(Decoded(a).value, Decoded(b).value);
    RoundTrip(Decoded(a).value);
  }
}
