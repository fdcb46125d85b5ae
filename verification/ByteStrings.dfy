/**
 Byte strings, 64-bit machine words, and the three ways the program cuts a byte
 string apart: at the first occurrence of a byte, at every separator, and into
 lines. Every other module is written over these definitions.
 */
module ByteStrings {

  newtype Byte = n: int | 0 <= n < 256
  newtype Uint64 = n: int | 0 <= n < 0x1_0000_0000_0000_0000

  type Bytes = seq<Byte>

  const UINT64_MAX: nat := 0xFFFF_FFFF_FFFF_FFFF

  const LF: Byte := 10
  const CR: Byte := 13
  const SPACE: Byte := 32
  const DASH: Byte := 45
  const CRLF: Bytes := [CR, LF]

  /** The bytes of a string literal of the program. */
  function Ascii(text: string): (b: Bytes)
    ensures |b| == |text|
  {
    seq(|text|, i requires 0 <= i < |text| => (text[i] as int % 256) as Byte)
  }

  /** The increment of an unsigned 64-bit counter: it wraps to zero. */
  function Increment(n: Uint64): (r: Uint64)
    ensures r == 0 <==> n as int == UINT64_MAX
    ensures r != 0 ==> r as int == n as int + 1
  {
    if n as int == UINT64_MAX then 0 else n + 1
  }

  /** Position of the first `b` in `s`, or `|s|` when there is none. */
  function Find(s: Bytes, b: Byte): (i: nat)
    ensures i <= |s|
    ensures forall k :: 0 <= k < i ==> s[k] != b
    ensures i < |s| ==> s[i] == b
  {
    if s == [] then 0
    else if s[0] == b then 0
    else 1 + Find(s[1..], b)
  }

  lemma ConcatAssoc<T>(a: seq<T>, b: seq<T>, c: seq<T>)
    ensures (a + b) + c == a + (b + c)
  {
  }

  lemma TakeOfAppend<T>(a: seq<T>, b: seq<T>, n: nat)
    requires |a| <= n <= |a| + |b|
    ensures (a + b)[..n] == a + b[..n - |a|]
  {
  }

  lemma CutAt(s: Bytes, i: nat)
    requires i < |s|
    ensures s == s[..i] + [s[i]] + s[i + 1..]
  {
  }

  /** What follows the first `b` does not move it. */
  lemma FindInPrefix(s: Bytes, t: Bytes, b: Byte)
    requires Find(s, b) < |s|
    ensures Find(s + t, b) == Find(s, b)
  {
    var i := Find(s, b);
    assert (s + t)[i] == b;
    assert forall k :: 0 <= k < i ==> (s + t)[k] == s[k];
  }

  /** A line without the carriage return of a CR LF ending. */
  function StripReturn(line: Bytes): Bytes
  {
    if line != [] && line[|line| - 1] == CR then line[..|line| - 1] else line
  }

  ghost function Flat(pieces: seq<Bytes>): Bytes
  {
    if pieces == [] then [] else Flat(pieces[..|pieces| - 1]) + pieces[|pieces| - 1]
  }

  lemma {:induction false} FlatConcat(a: seq<Bytes>, b: seq<Bytes>)
    ensures Flat(a + b) == Flat(a) + Flat(b)
    decreases |b|
  {
    if b == [] {
      assert a + b == a;
      assert Flat(a) + [] == Flat(a);
    } else {
      var front, last := b[..|b| - 1], b[|b| - 1];
      FlatConcat(a, front);
      assert (a + b)[..|a + b| - 1] == a + front && (a + b)[|a + b| - 1] == last;
      ConcatAssoc(Flat(a), Flat(front), last);
    }
  }

  // ----- Splitting at a separator, and its inverse -----

  /** The pieces of `s` between separators; never empty, pieces may be. */
  function Split(s: Bytes, separator: Byte): (parts: seq<Bytes>)
    ensures |parts| >= 1
    decreases |s|
  {
    var i := Find(s, separator);
    if i == |s| then [s] else [s[..i]] + Split(s[i + 1..], separator)
  }

  function Join(parts: seq<Bytes>, separator: Byte): Bytes
  {
    if parts == [] then []
    else if |parts| == 1 then parts[0]
    else parts[0] + [separator] + Join(parts[1..], separator)
  }

  ghost predicate FreeOf(s: Bytes, b: Byte)
  {
    forall i :: 0 <= i < |s| ==> s[i] != b
  }

  ghost predicate AllFreeOf(parts: seq<Bytes>, b: Byte)
  {
    forall i :: 0 <= i < |parts| ==> FreeOf(parts[i], b)
  }

  /** Splitting loses nothing: joining the pieces restores the input. */
  lemma {:induction false} JoinOfSplit(s: Bytes, separator: Byte)
    ensures Join(Split(s, separator), separator) == s
    ensures AllFreeOf(Split(s, separator), separator)
    decreases |s|
  {
    hide Find;
    var i := Find(s, separator);
    if i < |s| {
      var rest := Split(s[i + 1..], separator);
      JoinOfSplit(s[i + 1..], separator);
      assert Split(s, separator)[1..] == rest;
      assert s == s[..i] + [separator] + s[i + 1..];
    }
  }

  lemma FirstPart(first: Bytes, rest: Bytes, separator: Byte)
    requires FreeOf(first, separator)
    ensures Split(first + [separator] + rest, separator) == [first] + Split(rest, separator)
  {
    var s := first + [separator] + rest;
    assert s[|first|] == separator;
    assert forall k :: 0 <= k < |first| ==> s[k] == first[k];
    assert Find(s, separator) == |first|;
    hide Find;
    assert s[..|first|] == first && s[|first| + 1..] == rest;
  }

  lemma {:induction false} SplitOfJoin(parts: seq<Bytes>, separator: Byte)
    requires parts != [] && AllFreeOf(parts, separator)
    ensures Split(Join(parts, separator), separator) == parts
  {
    var s := Join(parts, separator);
    if |parts| > 1 {
      var rest := Join(parts[1..], separator);
      assert FreeOf(parts[0], separator) && s == parts[0] + [separator] + rest;
      hide Join, Split, Find;
      FirstPart(parts[0], rest, separator);
      SplitOfJoin(parts[1..], separator);
      hide FreeOf;
      assert parts == [parts[0]] + parts[1..];
    } else {
      assert FreeOf(parts[0], separator);
      assert parts == [parts[0]];
    }
  }

  /** Joining two lists of pieces. */
  lemma {:induction false} JoinAppend(a: seq<Bytes>, b: seq<Bytes>, separator: Byte)
    requires a != [] && b != []
    ensures Join(a + b, separator) == Join(a, separator) + [separator] + Join(b, separator)
  {
    assert (a + b)[0] == a[0];
    assert (a + b)[1..] == a[1..] + b;
    if |a| > 1 {
      JoinAppend(a[1..], b, separator);
    } else {
      assert (a + b)[1..] == b;
    }
  }

  /** A prefix of a string has no more pieces than the string. */
  lemma {:induction false} SplitOfPrefix(s: Bytes, n: nat, separator: Byte)
    requires n <= |s|
    ensures |Split(s[..n], separator)| <= |Split(s, separator)|
    decreases |s|
  {
    hide Find;
    var p := s[..n];
    var i := Find(p, separator);
    if i < |p| {
      FindInPrefix(p, s[n..], separator);
      assert p + s[n..] == s;
      SplitOfPrefix(s[i + 1..], n - i - 1, separator);
      assert p[i + 1..] == s[i + 1..][..n - i - 1];
    }
  }

  // ----- Lines, as std::getline reads them -----

  /** The lines of `s`: a final LF ends the last line, a nonempty tail without one is a line too. */
  function Lines(s: Bytes): (lines: seq<Bytes>)
    decreases |s|
  {
    if s == [] then [] else
    var i := Find(s, LF);
    if i == |s| then [s] else [s[..i]] + Lines(s[i + 1..])
  }

  ghost predicate EndsLine(s: Bytes)
  {
    s == [] || s[|s| - 1] == LF
  }

  /** The first line comes off the front. */
  lemma LinesOfLine(line: Bytes, rest: Bytes)
    requires FreeOf(line, LF)
    ensures Lines(line + [LF] + rest) == [line] + Lines(rest)
  {
    var s := line + [LF] + rest;
    assert s[|line|] == LF;
    assert forall k :: 0 <= k < |line| ==> s[k] == line[k];
    assert Find(s, LF) == |line|;
    assert s[..|line|] == line && s[|line| + 1..] == rest;
  }

  lemma LinesOfTail(tail: Bytes)
    requires FreeOf(tail, LF) && tail != []
    ensures Lines(tail) == [tail]
  {
  }

  lemma FirstLine(s: Bytes) returns (line: Bytes, rest: Bytes)
    requires EndsLine(s) && s != []
    ensures s == line + [LF] + rest
    ensures FreeOf(line, LF) && EndsLine(rest)
  {
    var i := Find(s, LF);
    assert i < |s|;
    line, rest := s[..i], s[i + 1..];
  }

  /** A text that ends a line is cut independently of what follows it. */
  lemma {:induction false} LinesAppend(a: Bytes, b: Bytes)
    requires EndsLine(a)
    ensures Lines(a + b) == Lines(a) + Lines(b)
    decreases |a|
  {
    if a == [] {
      assert a + b == b;
    } else {
      var line, rest := FirstLine(a);
      LinesOfLine(line, rest);
      LinesOfLine(line, rest + b);
      LinesAppend(rest, b);
      ConcatAssoc(line + [LF], rest, b);
      ConcatAssoc([line], Lines(rest), Lines(b));
    }
  }
}
