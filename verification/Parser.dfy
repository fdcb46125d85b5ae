/** From a command line to tokens to a request (src/protocol/parser.cpp). */
module Parser {
  import opened ByteStrings
  import opened Core
  import opened Commands

  /** isspace in the "C" locale. */
  predicate IsSpace(b: Byte)
  {
    b == 32 || 9 <= b <= 13
  }

  ghost predicate Blank(s: Bytes)
  {
    forall i :: 0 <= i < |s| ==> IsSpace(s[i])
  }

  ghost predicate Solid(s: Bytes)
  {
    forall i :: 0 <= i < |s| ==> !IsSpace(s[i])
  }

  /** Length of the leading run of whitespace. */
  ghost function SpaceRun(s: Bytes): (n: nat)
    ensures n <= |s| && Blank(s[..n]) && (n < |s| ==> !IsSpace(s[n]))
  {
    if s == [] || !IsSpace(s[0]) then 0 else 1 + SpaceRun(s[1..])
  }

  /** Length of the leading run of other bytes. */
  ghost function WordRun(s: Bytes): (n: nat)
    ensures n <= |s| && Solid(s[..n]) && (n < |s| ==> IsSpace(s[n]))
    ensures s != [] && !IsSpace(s[0]) ==> n > 0
  {
    if s == [] || IsSpace(s[0]) then 0 else 1 + WordRun(s[1..])
  }

  /** The words of a line. */
  ghost function Tokens(line: Bytes): seq<Bytes>
    decreases |line|
  {
    var rest := line[SpaceRun(line)..];
    if rest == [] then [] else [rest[..WordRun(rest)]] + Tokens(rest[WordRun(rest)..])
  }

  /** One word comes off a line. */
  lemma NextToken(line: Bytes, n: nat, m: nat)
    requires n == SpaceRun(line) < |line| && m == WordRun(line[n..])
    ensures Tokens(line) == [line[n..][..m]] + Tokens(line[n..][m..])
  {
    hide SpaceRun, WordRun;
  }

  lemma NoToken(line: Bytes)
    requires SpaceRun(line) == |line|
    ensures Tokens(line) == []
  {
    hide SpaceRun, WordRun;
  }

  lemma {:induction false} FirstWord(line: Bytes) returns (gap: Bytes, word: Bytes, tail: Bytes)
    requires SpaceRun(line) != |line|
    ensures gap + word + tail == line && |tail| < |line|
    ensures Blank(gap) && word != [] && Solid(word) && (tail != [] ==> IsSpace(tail[0]))
    ensures Tokens(line) == [word] + Tokens(tail)
  {
    var n := SpaceRun(line);
    var rest := line[n..];
    var m := WordRun(rest);
    gap, word, tail := line[..n], rest[..m], rest[m..];
    hide SpaceRun, WordRun, Blank, Solid;
    NextToken(line, n, m);
    hide Tokens;
    CutTwice(line, n, m);
  }

  lemma CutTwice(line: Bytes, n: nat, m: nat)
    requires n <= |line| && m <= |line| - n
    ensures line[..n] + line[n..][..m] + line[n..][m..] == line
  {
    var rest := line[n..];
    ConcatAssoc(line[..n], rest[..m], rest[m..]);
    assert rest[..m] + rest[m..] == rest;
    assert line[..n] + rest == line;
  }

  // ----- What the words of a line are -----

  /** Tokens that a line may consist of, with the whitespace around and between them. */
  ghost predicate Spaced(gaps: seq<Bytes>, tokens: seq<Bytes>)
  {
    && |gaps| == |tokens| + 1
    && (forall i :: 0 <= i < |gaps| ==> Blank(gaps[i]))
    && (forall i :: 0 < i < |tokens| ==> gaps[i] != [])
    && (forall i :: 0 <= i < |tokens| ==> tokens[i] != [] && Solid(tokens[i]))
  }

  ghost function Weave(gaps: seq<Bytes>, tokens: seq<Bytes>): Bytes
    requires |gaps| == |tokens| + 1
  {
    if tokens == [] then gaps[0] else gaps[0] + tokens[0] + Weave(gaps[1..], tokens[1..])
  }

  lemma WeaveStep(gap: Bytes, word: Bytes, gaps: seq<Bytes>, tokens: seq<Bytes>)
    requires Spaced(gaps, tokens) && Blank(gap) && word != [] && Solid(word)
    requires var tail := Weave(gaps, tokens); tail != [] ==> IsSpace(tail[0])
    ensures Spaced([gap] + gaps, [word] + tokens)
    ensures Weave([gap] + gaps, [word] + tokens) == gap + word + Weave(gaps, tokens)
  {
    WeaveCons(gap, word, gaps, tokens);
    if tokens != [] {
      TailNotEmpty(gaps, tokens);
      FirstGap(gaps, tokens, Weave(gaps, tokens));
    }
    hide Weave;
    SpacedCons(gap, word, gaps, tokens);
  }

  /** Every line is its tokens woven into whitespace. */
  lemma {:induction false} TokensWeave(line: Bytes) returns (gaps: seq<Bytes>)
    ensures Spaced(gaps, Tokens(line)) && Weave(gaps, Tokens(line)) == line
    decreases |line|
  {
    if SpaceRun(line) == |line| {
      gaps := [line];
      assert line[..|line|] == line;
    } else {
      hide Weave, Spaced, Blank, Solid, SpaceRun, WordRun, Tokens;
      var gap, word, tail := FirstWord(line);
      var more := TokensWeave(tail);
      gaps := [gap] + more;
      WeaveStep(gap, word, more, Tokens(tail));
    }
  }

  lemma WeaveCons(gap: Bytes, word: Bytes, gaps: seq<Bytes>, tokens: seq<Bytes>)
    requires |gaps| == |tokens| + 1
    ensures Weave([gap] + gaps, [word] + tokens) == gap + word + Weave(gaps, tokens)
  {
    assert ([gap] + gaps)[1..] == gaps && ([word] + tokens)[1..] == tokens;
  }

  lemma SpacedCons(gap: Bytes, word: Bytes, gaps: seq<Bytes>, tokens: seq<Bytes>)
    requires Spaced(gaps, tokens) && Blank(gap) && word != [] && Solid(word)
    requires tokens != [] ==> gaps[0] != []
    ensures Spaced([gap] + gaps, [word] + tokens)
  {
    hide Blank, Solid;
  }

  lemma TailNotEmpty(gaps: seq<Bytes>, tokens: seq<Bytes>)
    requires Spaced(gaps, tokens) && tokens != []
    ensures Weave(gaps, tokens) != []
  {
    assert |Weave(gaps, tokens)| >= |tokens[0]|;
  }

  /** A woven line that starts with whitespace has a first gap. */
  lemma FirstGap(gaps: seq<Bytes>, tokens: seq<Bytes>, line: Bytes)
    requires Spaced(gaps, tokens) && tokens != [] && Weave(gaps, tokens) == line
    requires line != [] && IsSpace(line[0])
    ensures gaps[0] != []
  {
    var front := gaps[0] + tokens[0];
    assert line[0] == front[0];
  }

  lemma {:induction false} RunsOf(gap: Bytes, word: Bytes, tail: Bytes)
    requires Blank(gap) && word != [] && Solid(word) && (tail != [] ==> IsSpace(tail[0]))
    ensures
      var line := gap + word + tail;
      && SpaceRun(line) == |gap| && line[|gap|..] == word + tail
      && WordRun(word + tail) == |word| && (word + tail)[|word|..] == tail
  {
    var line := gap + word + tail;
    assert line[|gap|..] == word + tail;
    assert !IsSpace(line[|gap|]) by {
      assert line[|gap|] == word[0];
    }
    SpaceRunIs(line, |gap|);
    WordRunIs(word + tail, |word|);
  }

  lemma SpaceRunIs(s: Bytes, n: nat)
    requires n <= |s| && Blank(s[..n]) && (n < |s| ==> !IsSpace(s[n]))
    ensures SpaceRun(s) == n
  {
    var m := SpaceRun(s);
    assert forall k :: 0 <= k < n ==> s[..n][k] == s[k];
    assert forall k :: 0 <= k < m ==> s[..m][k] == s[k];
  }

  lemma {:induction false} WordRunIs(s: Bytes, n: nat)
    requires n <= |s| && Solid(s[..n]) && (n < |s| ==> IsSpace(s[n]))
    ensures WordRun(s) == n
  {
    var m := WordRun(s);
    assert forall k :: 0 <= k < n ==> s[..n][k] == s[k];
    assert forall k :: 0 <= k < m ==> s[..m][k] == s[k];
  }

  lemma TokensOfWord(gap: Bytes, word: Bytes, tail: Bytes)
    requires Blank(gap) && word != [] && Solid(word) && (tail != [] ==> IsSpace(tail[0]))
    ensures Tokens(gap + word + tail) == [word] + Tokens(tail)
  {
    RunsOf(gap, word, tail);
    hide SpaceRun, WordRun, Solid, Blank;
    NextToken(gap + word + tail, |gap|, |word|);
    hide Tokens;
    assert (word + tail)[..|word|] == word;
  }

  lemma NextGap(gaps: seq<Bytes>, tokens: seq<Bytes>)
    requires Spaced(gaps, tokens) && tokens != []
    ensures Spaced(gaps[1..], tokens[1..])
    ensures var rest := Weave(gaps[1..], tokens[1..]); rest != [] ==> IsSpace(rest[0])
  {
    var rest := Weave(gaps[1..], tokens[1..]);
    if |tokens| > 1 {
      assert gaps[1..][0] == gaps[1] && IsSpace(gaps[1][0]);
      assert rest[0] == gaps[1][0];
    } else {
      assert rest == gaps[1];
    }
  }

  /** Only one list of tokens can be woven into a line, so `Tokens` finds exactly the maximal words. */
  lemma {:induction false} TokensUnique(gaps: seq<Bytes>, tokens: seq<Bytes>)
    requires Spaced(gaps, tokens)
    ensures Tokens(Weave(gaps, tokens)) == tokens
  {
    if tokens == [] {
      var line := gaps[0];
      SpaceRunIs(line, |line|);
      NoToken(line);
    } else {
      NextGap(gaps, tokens);
      hide Tokens;
      TokensOfWord(gaps[0], tokens[0], Weave(gaps[1..], tokens[1..]));
      TokensUnique(gaps[1..], tokens[1..]);
    }
  }

  /** The tokens of a line are empty exactly if it is blank. */
  lemma {:induction false} NoTokensIffBlank(line: Bytes)
    ensures Tokens(line) == [] <==> Blank(line)
  {
    var n := SpaceRun(line);
    if Blank(line) {
      SpaceRunIs(line, |line|);
    } else {
      assert n < |line| by {
        assert line[..|line|] == line;
      }
    }
  }

  lemma JoinGaps(tokens: seq<Bytes>) returns (gaps: seq<Bytes>)
    requires tokens != []
    requires forall i :: 0 <= i < |tokens| ==> tokens[i] != [] && Solid(tokens[i])
    ensures Spaced(gaps, tokens) && gaps[0] == [] && gaps[|tokens|] == []
    ensures forall i :: 0 < i < |tokens| ==> gaps[i] == [SPACE]
  {
    gaps := seq(|tokens| + 1, i => if 0 < i < |tokens| then [SPACE] else []);
  }

  /** Joining words with single spaces and tokenizing gives the words back. */
  lemma {:induction false} TokensOfJoin(tokens: seq<Bytes>)
    requires forall i :: 0 <= i < |tokens| ==> tokens[i] != [] && Solid(tokens[i])
    ensures Tokens(Join(tokens, SPACE)) == tokens
  {
    if tokens == [] {
      NoTokensIffBlank(Join(tokens, SPACE));
    } else {
      var gaps := JoinGaps(tokens);
      hide Tokens, Join, Weave;
      WeaveOfJoin(tokens, gaps);
      TokensUnique(gaps, tokens);
      assert [] + Join(tokens, SPACE) == Join(tokens, SPACE);
    }
  }

  lemma {:induction false} WeaveOfJoin(tokens: seq<Bytes>, gaps: seq<Bytes>)
    requires tokens != [] && |gaps| == |tokens| + 1 && gaps[|tokens|] == []
    requires forall i :: 0 < i < |tokens| ==> gaps[i] == [SPACE]
    ensures Weave(gaps, tokens) == gaps[0] + Join(tokens, SPACE)
  {
    if |tokens| == 1 {
      assert tokens[1..] == [];
      assert gaps[0] + tokens[0] + gaps[1..][0] == gaps[0] + tokens[0];
    } else {
      var rest := Join(tokens[1..], SPACE);
      WeaveOfJoin(tokens[1..], gaps[1..]);
      assert gaps[0] + tokens[0] + ([SPACE] + rest) == gaps[0] + (tokens[0] + [SPACE] + rest);
    }
  }

  /** The bytes of `s` that are not whitespace. */
  ghost function Squeezed(s: Bytes): Bytes
  {
    if s == [] then [] else
    (if IsSpace(s[0]) then [] else [s[0]]) + Squeezed(s[1..])
  }

  ghost function Concatenated(tokens: seq<Bytes>): Bytes
  {
    if tokens == [] then [] else tokens[0] + Concatenated(tokens[1..])
  }

  lemma {:induction false} SqueezedAppend(a: Bytes, b: Bytes)
    ensures Squeezed(a + b) == Squeezed(a) + Squeezed(b)
  {
    if a == [] {
      assert a + b == b;
    } else {
      SqueezedAppend(a[1..], b);
      assert (a + b)[1..] == a[1..] + b;
      ConcatAssoc(if IsSpace(a[0]) then [] else [a[0]], Squeezed(a[1..]), Squeezed(b));
    }
  }

  lemma {:induction false} SqueezedRuns(s: Bytes)
    ensures Blank(s) ==> Squeezed(s) == []
    ensures Solid(s) ==> Squeezed(s) == s
  {
    if s != [] {
      SqueezedRuns(s[1..]);
    }
  }

  /** Nothing but whitespace is lost: the tokens in a row are the line without its whitespace. */
  lemma {:induction false} TokensKeepBytes(gaps: seq<Bytes>, tokens: seq<Bytes>)
    requires Spaced(gaps, tokens)
    ensures Concatenated(tokens) == Squeezed(Weave(gaps, tokens))
  {
    SqueezedRuns(gaps[0]);
    if tokens != [] {
      SqueezedRuns(tokens[0]);
      TokensKeepBytes(gaps[1..], tokens[1..]);
      SqueezedAppend(gaps[0] + tokens[0], Weave(gaps[1..], tokens[1..]));
      SqueezedAppend(gaps[0], tokens[0]);
      assert [] + tokens[0] == tokens[0];
    }
  }

  lemma {:induction false} ConcatenatedTokens(line: Bytes)
    ensures Concatenated(Tokens(line)) == Squeezed(line)
  {
    var gaps := TokensWeave(line);
    TokensKeepBytes(gaps, Tokens(line));
  }

  // ----- Requests -----

  const EMPTY_LINE: ErrorStatus := InvalidArgumentError("command line must not be empty")

  ghost function RequestOf(tokens: seq<Bytes>): Result<CommandRequest>
    requires tokens != []
  {
    var kind := CommandTypeOf(tokens[0]);
    if kind.Failure? then Failure(kind.error) else
    var request := CommandRequest(kind.value, tokens[1..]);
    var status := ValidateCommandRequest(request);
    if status.Error? then Failure(status) else Success(request)
  }

  /** What a command line asks for. */
  ghost function Parsed(line: Bytes): Result<CommandRequest>
  {
    if Blank(line) then Failure(EMPTY_LINE) else
    (NoTokensIffBlank(line);
     RequestOf(Tokens(line)))
  }

  /** A line matters only through its tokens. */
  lemma ParsedThroughTokens(a: Bytes, b: Bytes)
    requires Tokens(a) == Tokens(b)
    ensures Parsed(a) == Parsed(b)
  {
    NoTokensIffBlank(a);
    NoTokensIffBlank(b);
    hide Tokens, Blank, RequestOf;
  }

  /** A request is well formed, and none of its arguments is empty. */
  lemma {:induction false} ParsedRequest(line: Bytes)
    requires Parsed(line).Success?
    ensures
      var request := Parsed(line).value;
      && |request.arguments| == ExpectedArgumentCount(request.kind)
      && forall i :: 0 <= i < |request.arguments| ==> request.arguments[i] != []
  {
    var gaps := TokensWeave(line);
    var request := Parsed(line).value;
    assert forall i :: 0 <= i < |request.arguments| ==> request.arguments[i] == Tokens(line)[i + 1];
    hide Tokens, CommandTypeOf;
  }

  // ----- The program's loops -----

  method IsBlank(line: Bytes) returns (blank: bool)
    ensures blank <==> Blank(line)
  {
    for i := 0 to |line|
      invariant Blank(line[..i])
    {
      if !IsSpace(line[i]) {
        return false;
      }
    }
    assert line[..|line|] == line;
    return true;
  }

  lemma SlicesOfSlices(line: Bytes, start: nat, next: nat, m: nat)
    requires start <= next <= |line| && m <= |line| - next
    ensures line[start..][next - start..] == line[next..]
    ensures line[next..][..m] == line[next..next + m]
    ensures line[next..][m..] == line[next + m..]
  {
  }

  /** The word between `next` and `end` is the next token of what starts at `start`. */
  lemma {:induction false} WordAt(line: Bytes, start: nat, next: nat, end: nat)
    requires start <= next < |line| && next <= end <= |line|
    requires next - start == SpaceRun(line[start..]) && end - next == WordRun(line[next..])
    ensures Tokens(line[start..]) == [line[next..end]] + Tokens(line[end..])
  {
    hide Tokens, SpaceRun, WordRun, Solid, Blank;
    SlicesOfSlices(line, start, next, end - next);
    NextToken(line[start..], next - start, end - next);
  }

  lemma SliceRun(line: Bytes, start: nat, next: nat)
    requires start <= next <= |line|
    ensures line[start..][..next - start] == line[start..next]
    ensures next < |line| ==> line[start..][next - start] == line[next]
  {
  }

  method TokenizeCommandLine(line: Bytes) returns (tokens: seq<Bytes>)
    ensures tokens == Tokens(line)
  {
    hide Tokens, SpaceRun, WordRun;
    tokens := [];
    var i := 0;
    assert line[0..] == line;
    assert tokens + Tokens(line) == Tokens(line);
    while i < |line|
      invariant i <= |line|
      invariant Tokens(line) == tokens + Tokens(line[i..])
    {
      ghost var start := i;
      while i < |line| && IsSpace(line[i])
        invariant start <= i <= |line| && forall k :: start <= k < i ==> IsSpace(line[k])
      {
        i := i + 1;
      }
      SliceRun(line, start, i);
      SpaceRunIs(line[start..], i - start);
      if i >= |line| {
        NoToken(line[start..]);
        assert tokens + [] == tokens;
        return;
      }
      var tokenStart := i;
      while i < |line| && !IsSpace(line[i])
        invariant tokenStart <= i <= |line| && forall k :: tokenStart <= k < i ==> !IsSpace(line[k])
      {
        i := i + 1;
      }
      SliceRun(line, tokenStart, i);
      WordRunIs(line[tokenStart..], i - tokenStart);
      WordAt(line, start, tokenStart, i);
      ConcatAssoc(tokens, [line[tokenStart..i]], Tokens(line[i..]));
      tokens := tokens + [line[tokenStart..i]];
    }
    assert line[i..] == [];
    NoTokensIffBlank([]);
    assert tokens + [] == tokens;
  }

  method ParseCommandLine(line: Bytes) returns (r: Result<CommandRequest>)
    ensures r == Parsed(line)
  {
    NoTokensIffBlank(line);
    hide Tokens, CommandTypeOf;
    var blank := IsBlank(line);
    if line == [] || blank {
      return Failure(EMPTY_LINE);
    }
    var tokens := TokenizeCommandLine(line);
    var kind := CommandTypeOf(tokens[0]);
    if kind.Failure? {
      return Failure(kind.error);
    }
    var arguments := [];
    for i := 1 to |tokens|
      invariant arguments == tokens[1..i]
    {
      assert tokens[1..i + 1] == tokens[1..i] + [tokens[i]];
      arguments := arguments + [tokens[i]];
    }
    assert tokens[1..|tokens|] == tokens[1..];
    var request := CommandRequest(kind.value, arguments);
    var status := ValidateCommandRequest(request);
    if status.Error? {
      return Failure(status);
    }
    return Success(request);
  }
}
