/**
 Decimal text: what std::to_string writes, and the digit loop with an overflow
 guard that the record codec and the client's response parser both contain.
 */
module Decimal {
  import opened ByteStrings

  const ZERO: Byte := 48
  const MINUS: Byte := 45

  predicate IsDigit(b: Byte)
  {
    48 <= b <= 57
  }

  predicate AllDigits(s: Bytes)
  {
    forall i :: 0 <= i < |s| ==> IsDigit(s[i])
  }

  function DigitValue(b: Byte): nat
    requires IsDigit(b)
  {
    b as int - 48
  }

  function DigitByte(d: nat): (b: Byte)
    requires d < 10
    ensures IsDigit(b) && DigitValue(b) == d
  {
    (48 + d) as Byte
  }

  /** The number a digit string denotes; leading zeros are allowed. */
  ghost function DecimalValue(s: Bytes): nat
    requires AllDigits(s)
  {
    if s == [] then 0 else DecimalValue(s[..|s| - 1]) * 10 + DigitValue(s[|s| - 1])
  }

  /** std::to_string of an unsigned number. */
  function Digits(n: nat): (s: Bytes)
    ensures s != []
  {
    if n < 10 then [DigitByte(n)] else Digits(n / 10) + [DigitByte(n % 10)]
  }

  lemma {:induction false} DigitsDenote(n: nat)
    ensures AllDigits(Digits(n)) && DecimalValue(Digits(n)) == n
    ensures n != 0 ==> Digits(n)[0] != ZERO
  {
    if n < 10 {
      assert Digits(n)[..0] == [];
    } else {
      DigitsDenote(n / 10);
      var front := Digits(n / 10);
      assert Digits(n)[..|front|] == front;
    }
  }

  /** The digit string without its leading zeros. */
  function StripZeros(s: Bytes): Bytes
  {
    if s != [] && s[0] == ZERO then StripZeros(s[1..]) else s
  }

  lemma {:induction false} DropLeadingZero(s: Bytes)
    requires AllDigits(s) && s != [] && s[0] == ZERO
    ensures DecimalValue(s[1..]) == DecimalValue(s)
  {
    if |s| == 1 {
      assert s[..0] == [];
    } else {
      var front := s[..|s| - 1];
      DropLeadingZero(front);
      assert s[1..][..|s| - 2] == front[1..];
    }
  }

  lemma {:induction false} LeadingDigitPositive(s: Bytes)
    requires AllDigits(s) && s != [] && s[0] != ZERO
    ensures DecimalValue(s) > 0
  {
    if |s| > 1 {
      LeadingDigitPositive(s[..|s| - 1]);
    }
  }

  /** Writing back the value of a digit string drops exactly its leading zeros. */
  lemma {:induction false} DigitsOfValue(s: Bytes)
    requires AllDigits(s) && s != [] && s[0] != ZERO
    ensures Digits(DecimalValue(s)) == s
  {
    var n := DecimalValue(s);
    var front, last := s[..|s| - 1], s[|s| - 1];
    if |s| == 1 {
      assert front == [];
    } else {
      DigitsOfValue(front);
      LeadingDigitPositive(front);
      assert n / 10 == DecimalValue(front) && n % 10 == DigitValue(last);
    }
    assert s == front + [last];
  }

  lemma {:induction false} CanonicalDigits(s: Bytes)
    requires AllDigits(s) && DecimalValue(s) > 0
    ensures Digits(DecimalValue(s)) == StripZeros(s)
  {
    if s[0] == ZERO {
      DropLeadingZero(s);
      CanonicalDigits(s[1..]);
    } else {
      DigitsOfValue(s);
    }
  }

  // ----- The guarded digit loop -----

  datatype Number = Value(n: Uint64) | Empty | NotNumeric | TooLarge

  /** Scanning left to right, stopping at the first byte that spoils the number. */
  function Scan(s: Bytes): Number
  {
    if s == [] then Value(0) else
    match Scan(s[..|s| - 1])
    case Value(n) =>
      var b := s[|s| - 1];
      if !IsDigit(b) then NotNumeric
      else if n as int * 10 + DigitValue(b) > UINT64_MAX then TooLarge
      else Value((n as int * 10 + DigitValue(b)) as Uint64)
    case spoiled => spoiled
  }

  function Parsed(s: Bytes): Number
  {
    if s == [] then Empty else Scan(s)
  }

  lemma {:induction false} ScanExact(s: Bytes)
    ensures Scan(s).Value? <==> AllDigits(s) && DecimalValue(s) <= UINT64_MAX
    ensures Scan(s).Value? ==> Scan(s).n as int == DecimalValue(s)
  {
    if s != [] {
      var front := s[..|s| - 1];
      ScanExact(front);
      assert AllDigits(s) <==> AllDigits(front) && IsDigit(s[|s| - 1]);
    }
  }

  lemma ScanSpoiled(s: Bytes, i: nat)
    requires i <= |s| && !Scan(s[..i]).Value?
    ensures Scan(s) == Scan(s[..i])
    decreases |s| - i
  {
    if i < |s| {
      assert s[..i + 1][..i] == s[..i];
      ScanSpoiled(s, i + 1);
    } else {
      assert s[..i] == s;
    }
  }

  /** The guard rejects exactly the strings that are no 64-bit number, and nothing wraps on the way. */
  lemma {:induction false} ParsedExact(s: Bytes)
    ensures Parsed(s).Value? <==> s != [] && AllDigits(s) && DecimalValue(s) <= UINT64_MAX
    ensures Parsed(s).Value? ==> Parsed(s).n as int == DecimalValue(s)
  {
    ScanExact(s);
  }

  lemma ParsedOfDigits(n: Uint64)
    ensures Parsed(Digits(n as int)) == Value(n)
  {
    DigitsDenote(n as int);
    ParsedExact(Digits(n as int));
  }

  /**
   The digit loop. Every product and sum is on Uint64, so the verifier checks
   that no intermediate result leaves the 64-bit range.
   */
  method ParseUnsigned(value: Bytes) returns (r: Number)
    ensures r == Parsed(value)
  {
    if value == [] {
      return Empty;
    }
    var result: Uint64 := 0;
    for i := 0 to |value|
      invariant Scan(value[..i]) == Value(result)
    {
      var ch := value[i];
      assert value[..i + 1][..i] == value[..i];
      if !IsDigit(ch) {
        ScanSpoiled(value, i + 1);
        return NotNumeric;
      }
      var digit := (ch as int - 48) as Uint64;
      if result > (0xFFFF_FFFF_FFFF_FFFF - digit) / 10 {
        ScanSpoiled(value, i + 1);
        return TooLarge;
      }
      result := result * 10 + digit;
    }
    assert value[..|value|] == value;
    return Value(result);
  }
}
